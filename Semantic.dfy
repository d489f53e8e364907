/** The semantic analyzer (SemanticAnalyzer.java): one walk over the tree
    that registers declarations in the scoped symbol table, resolves each
    expression's type, accumulates diagnostics and writes a scope trace.

    The analyzer is a class whose fields the Java methods update in place:
    the table (`symbolTable`), the error log (standing for `reportError`'s
    printing) and the trace (`output`). Each visit returns the `dtype` the
    Java visit writes into the node. `aborted` records the one runtime
    failure of the walk: a call whose name resolves to a variable makes the
    cast at SemanticAnalyzer.java:340 throw, which ends the analysis. */
module Semantic {
  import opened Absyn
  import opened Errors
  import opened SymbolTable
  import opened TypeRules

  const ROOT_LEVEL: int := 0
  const SPACES: int := 4
  const MAIN_FUNCTION_NAME: string := "main"
  const GLOBAL_ENTER: string := "Entering the global scope:\n"
  const GLOBAL_LEAVE: string := "Leaving the global scope\n"

  /** The builtins registered at level 0. `input` is bodiless; `output` has
      a null body in the source, which no test there takes for a NilExp, so
      here it gets an empty block. */
  const InputFunc: Dec := FunctionDec(-1, -1, NameTy(-1, -1, INT), "input", [], NilExp(-1, -1))
  const OutputFunc: Dec :=
    FunctionDec(-1, -1, NameTy(-1, -1, VOID), "output",
                [SimpleDec(-1, -1, NameTy(-1, -1, INT), "x")], CompoundExp(-1, -1, [], []))

  /** The table initSymbolTable builds. */
  const BuiltinTable: Table :=
    map["input" := [NodeType("input", InputFunc, ROOT_LEVEL)],
        "output" := [NodeType("output", OutputFunc, ROOT_LEVEL)]]

  /** indent: four spaces per level. */
  function Indent(level: int): (s: string)
    ensures |s| == if level > 0 then level * SPACES else 0
    ensures forall i :: 0 <= i < |s| ==> s[i] == ' '
  {
    if level > 0 then seq(level * SPACES, _ => ' ') else ""
  }

  function LowerChar(c: char): char {
    if 'A' <= c <= 'Z' then (c as int + 32) as char else c
  }

  /** toLowerCase, on the ASCII strings it is applied to here: no upper-case
      letter is left, each one becomes the letter 32 code points above it,
      and every other character is kept. */
  function Lower(s: string): (r: string)
    ensures |r| == |s|
    ensures forall i :: 0 <= i < |r| ==> !('A' <= r[i] <= 'Z')
    ensures forall i :: 0 <= i < |s| && 'A' <= s[i] <= 'Z' ==> r[i] as int == s[i] as int + 32
    ensures forall i :: 0 <= i < |s| && !('A' <= s[i] <= 'Z') ==> r[i] == s[i]
  {
    seq(|s|, i requires 0 <= i < |s| => LowerChar(s[i]))
  }

  /** The type name the trace prints. */
  function TypeName(t: NameTy): string {
    if t.typ == BOOL then "bool" else if t.typ == INT then "int"
    else if t.typ == VOID then "void" else "unknown"
  }

  /** The trace prints the type's name in lower case:
      getTypeString().toLowerCase(). */
  lemma TypeNameIsLowerTypeString(t: NameTy)
    ensures TypeName(t) == Lower(GetTypeString(t))
  {
    var s := Lower(GetTypeString(t));
    if t.typ == BOOL {
      assert s == "bool";
    } else if t.typ == INT {
      assert s == "int";
    } else if t.typ == VOID {
      assert s == "void";
    } else {
      assert s == "unknown";
    }
  }

  /** The parameter types of a function, separated by ", ". */
  function ParamList(ps: seq<VarDec>): string
    decreases |ps|
  {
    if ps == [] then ""
    else if |ps| == 1 then TypeName(ps[0].typ)
    else ParamList(ps[..|ps| - 1]) + ", " + TypeName(ps[|ps| - 1].typ)
  }

  /** The trace line displayDec writes for a removed declaration. */
  function DecLine(d: Dec): string {
    match d
    case VarDecl(v) => v.name + ": " + TypeName(v.typ) + (if v.ArrayDec? then "[]" else "") + "\n"
    case FunctionDec(_, _, result, func, params, _) =>
      func + ": (" + (if params == [] then "void" else ParamList(params)) + ") -> " + TypeName(result) + "\n"
  }

  function CountChar(s: string, c: char): nat
    decreases |s|
  {
    if s == [] then 0 else CountChar(s[..|s| - 1], c) + (if s[|s| - 1] == c then 1 else 0)
  }

  lemma {:induction false} CountCharAppend(a: string, b: string, c: char)
    ensures CountChar(a + b, c) == CountChar(a, c) + CountChar(b, c)
    decreases |b|
  {
    if b == [] {
      assert a + b == a;
    } else {
      CountCharAppend(a, b[..|b| - 1], c);
      assert (a + b)[..|a + b| - 1] == a + b[..|b| - 1];
    }
  }

  lemma {:induction false} CountCharAbsent(s: string, c: char)
    requires forall i :: 0 <= i < |s| ==> s[i] != c
    ensures CountChar(s, c) == 0
    decreases |s|
  {
    if s != [] {
      CountCharAbsent(s[..|s| - 1], c);
    }
  }

  lemma TypeNameHasNoComma(t: NameTy)
    ensures CountChar(TypeName(t), ',') == 0
  {
    CountCharAbsent(TypeName(t), ',');
  }

  /** A function's trace line lists one type per parameter: its parameter
      list holds exactly one comma fewer than there are parameters. */
  lemma {:induction false} ParamListOneTypePerParam(ps: seq<VarDec>)
    requires ps != []
    ensures CountChar(ParamList(ps), ',') == |ps| - 1
    decreases |ps|
  {
    if |ps| == 1 {
      TypeNameHasNoComma(ps[0].typ);
    } else {
      var init := ps[..|ps| - 1];
      ParamListOneTypePerParam(init);
      TypeNameHasNoComma(ps[|ps| - 1].typ);
      CountCharAppend(ParamList(init) + ", ", TypeName(ps[|ps| - 1].typ), ',');
      CountCharAppend(ParamList(init), ", ", ',');
      assert ", "[..1] == ",";
      assert CountChar(", ", ',') == 1;
    }
  }

  /** The trace written while closing a scope: one indented line per
      declaration whose name still had an entry to pop, in list order. */
  function RemovalTrace(t: Table, ds: seq<Dec>, level: int): string
    decreases |ds|
  {
    if ds == [] then ""
    else
      var init := ds[..|ds| - 1];
      var before := RemoveAll(t, Names(init));
      var n := ds[|ds| - 1].Name();
      RemovalTrace(t, init, level) +
      (if n in before && |before[n]| > 0 then Indent(level) + DecLine(ds[|ds| - 1]) else "")
  }

  lemma ParamListStep(ps: seq<VarDec>, k: int)
    requires 0 <= k < |ps|
    ensures ParamList(ps[..k + 1]) ==
      (if k == 0 then "" else ParamList(ps[..k]) + ", ") + TypeName(ps[k].typ)
  {
    assert ps[..k + 1][..k] == ps[..k];
  }

  /** One step of closing a scope: the next name is popped and traced. */
  lemma RemovalStep(t: Table, ds: seq<Dec>, i: int, level: int)
    requires 0 <= i < |ds|
    ensures RemoveAll(t, Names(ds[..i + 1])) == Removed(RemoveAll(t, Names(ds[..i])), ds[i].Name())
    ensures RemovalTrace(t, ds[..i + 1], level) ==
      RemovalTrace(t, ds[..i], level) +
      (var before := RemoveAll(t, Names(ds[..i]));
       if ds[i].Name() in before && |before[ds[i].Name()]| > 0 then Indent(level) + DecLine(ds[i]) else "")
  {
    assert ds[..i + 1][..i] == ds[..i];
    assert Names(ds[..i + 1])[..i] == Names(ds[..i]);
  }

  lemma Assoc3(o: string, a: string, b: string, c: string)
    ensures o + (a + b + c) == o + a + b + c
  {
  }

  lemma AppendTrace(o: string, a: string, b: string, c: string)
    ensures o + (a + (b + c)) == o + a + b + c
  {
  }

  lemma AppendLine(o: string, a: string, b: string, c: string, d: string, e: string, f: string)
    ensures o + (a + b + c + d + e + f) == o + a + b + c + d + e + f
  {
  }

  lemma PushAllStep(t: Table, vs: seq<VarDec>, i: int, level: int)
    requires 0 <= i < |vs|
    ensures PushAll(t, vs[..i + 1], level) == Pushed(PushAll(t, vs[..i], level), VarDecl(vs[i]), level)
  {
    assert vs[..i + 1][..i] == vs[..i];
  }

  /** One variable more of a list: registered, or reported as void. */
  lemma RegisterStep(t: Table, vs: seq<VarDec>, i: int, level: int)
    requires 0 <= i < |vs|
    ensures var t0 := RegisterAll(t, Lift(vs[..i]), level);
      RegisterAll(t, Lift(vs[..i + 1]), level) ==
        (if vs[i].typ.typ == VOID then t0 else Added(t0, VarDecl(vs[i]), level)) &&
      RegisterReports(t, Lift(vs[..i + 1]), level) == RegisterReports(t, Lift(vs[..i]), level) +
        (if vs[i].typ.typ == VOID then [At(vs[i].row, vs[i].col, VoidVariableMsg)] else AddReports(t0, VarDecl(vs[i]), level))
  {
    var ds := Lift(vs[..i + 1]);
    assert ds[..i] == Lift(vs[..i]) && ds[i] == VarDecl(vs[i]);
  }

  function ArgTypes(dtypes: seq<Option<Dec>>): (r: seq<int>)
    ensures |r| == |dtypes| && forall i :: 0 <= i < |dtypes| ==> r[i] == TypeOf(dtypes[i])
  {
    seq(|dtypes|, i requires 0 <= i < |dtypes| => TypeOf(dtypes[i]))
  }

  function ParamTypes(ps: seq<VarDec>): (r: seq<int>)
    ensures |r| == |ps| && forall i :: 0 <= i < |ps| ==> r[i] == ps[i].typ.typ
  {
    seq(|ps|, i requires 0 <= i < |ps| => ps[i].typ.typ)
  }

  /** A variable added without a report was pushed: the exemption concerns
      functions only. */
  lemma VarAddedSilentlyIsPushed(t: Table, v: VarDec, level: int)
    requires AddReports(t, VarDecl(v), level) == []
    ensures Added(t, VarDecl(v), level) == Pushed(t, VarDecl(v), level)
  {
  }

  /** A program that declares the builtin `output` as a prototype and then
      defines it, at level 1, adds both without a report: the prototype
      does not clash with the level-0 builtin, and the definition is the
      exempt completion of the prototype, so it is not pushed. Closing the
      global scope pops once per declaration, so the second pop takes the
      builtin's own entry, and traces both. This is what the code does; the
      table is not read after the analysis. */
  lemma RedeclaredBuiltinIsPopped(proto: Dec, def: Dec)
    requires proto.FunctionDec? && proto.func == "output" && proto.IsPrototype()
    requires def.FunctionDec? && def.func == "output" && !def.IsPrototype()
    ensures AddReports(BuiltinTable, proto, ROOT_LEVEL + 1) == []
    ensures AddReports(Added(BuiltinTable, proto, ROOT_LEVEL + 1), def, ROOT_LEVEL + 1) == []
    ensures Stack(BuiltinTable, "output") != []
    ensures Stack(RemoveAll(AddedAll(BuiltinTable, [proto, def], ROOT_LEVEL + 1), Names([proto, def])), "output") == []
    ensures RemovalTrace(AddedAll(BuiltinTable, [proto, def], ROOT_LEVEL + 1), [proto, def], ROOT_LEVEL + 1) ==
      Indent(ROOT_LEVEL + 1) + DecLine(proto) + Indent(ROOT_LEVEL + 1) + DecLine(def)
  {
    var level := ROOT_LEVEL + 1;
    var t1 := Added(BuiltinTable, proto, level);
    assert Stack(BuiltinTable, "output") == [NodeType("output", OutputFunc, ROOT_LEVEL)];
    assert t1 == Pushed(BuiltinTable, proto, level);
    assert Stack(t1, "output") == [NodeType("output", proto, level), NodeType("output", OutputFunc, ROOT_LEVEL)];
    assert FirstConflict(Stack(t1, "output"), def, level) == Some(NodeType("output", proto, level));
    assert Added(t1, def, level) == t1;
    assert [proto, def][..1] == [proto];
    assert [proto][..0] == [];
    assert AddedAll(BuiltinTable, [proto], level) == t1;
    var all := AddedAll(BuiltinTable, [proto, def], level);
    assert all == t1;
    assert Names([proto, def]) == ["output", "output"];
    assert Names([proto]) == ["output"] && Names([]) == [];
    assert RemoveAll(all, []) == all;
    var once := RemoveAll(all, ["output"]);
    assert once == Removed(all, "output");
    assert Stack(once, "output") == [NodeType("output", OutputFunc, ROOT_LEVEL)];
    assert RemovalTrace(all, [proto], level) == Indent(level) + DecLine(proto);
  }

  // ---- Resolved types -----------------------------------------------------

  /** The declaration a node's dtype refers to when the table is `t`: the
      dummies of the literals and of an operator's output type, the front
      entry of a variable's or a callee's name, an assignment's left side and
      a return's expression; nil and the statement forms have none. */
  function ResolvedType(e: Exp, t: Table): Option<Dec>
    decreases e
  {
    match e
    case IntExp(_, _, _) => Some(DummyDec(INT))
    case BoolExp(_, _, _) => Some(DummyDec(BOOL))
    case OpExp(_, _, _, op, _) => Some(DummyDec(OperatorOutputType(op)))
    case VarExp(_, _, v) => FrontDec(t, v.name)
    case CallExp(_, _, f, _) => FrontDec(t, f)
    case AssignExp(_, _, lhs, _) => ResolvedType(lhs, t)
    case ReturnExp(_, _, x) => ResolvedType(x, t)
    case _ => None
  }

  /** The forms whose dtype does not depend on the table. */
  predicate TableFree(e: Exp) {
    e.NilExp? || e.IntExp? || e.BoolExp? || e.OpExp? || e.IfExp? || e.WhileExp? || e.CompoundExp?
  }

  /** The forms whose dtype is read after their last sub-visit, so that no
      later step of their own visit can change the table it was read from. */
  predicate ReadLast(e: Exp) {
    !e.AssignExp? && !e.ReturnExp?
  }

  /** The leaves the analyzer visits without any effect. */
  predicate Quiet(e: Exp) {
    e.NilExp? || e.IntExp? || e.BoolExp?
  }

  /** Each expression of a list resolved to its dtype in table `t`. */
  ghost predicate Resolves(es: seq<Exp>, dts: seq<Option<Dec>>, t: Table) {
    |dts| == |es| && forall i :: 0 <= i < |es| ==> dts[i] == ResolvedType(es[i], t)
  }

  /** The same, for the expressions of the list whose dtype does not depend
      on the table. */
  ghost predicate ResolvesFree(es: seq<Exp>, dts: seq<Option<Dec>>, t: Table) {
    |dts| == |es| && forall i :: 0 <= i < |es| && TableFree(es[i]) ==> dts[i] == ResolvedType(es[i], t)
  }

  /** The resolved type reads only the stacks of the table. */
  lemma {:induction false} ResolvedTypeStable(e: Exp, t1: Table, t2: Table)
    requires SameStacks(t1, t2)
    ensures ResolvedType(e, t1) == ResolvedType(e, t2)
    decreases e
  {
    match e
    case VarExp(_, _, v) =>
      assert Stack(t1, v.name) == Stack(t2, v.name);
    case CallExp(_, _, f, _) =>
      assert Stack(t1, f) == Stack(t2, f);
    case AssignExp(_, _, lhs, _) =>
      ResolvedTypeStable(lhs, t1, t2);
    case ReturnExp(_, _, x) =>
      ResolvedTypeStable(x, t1, t2);
    case _ =>
  }

  lemma ResolvesStable(es: seq<Exp>, dts: seq<Option<Dec>>, t1: Table, t2: Table)
    requires SameStacks(t1, t2)
    ensures Resolves(es, dts, t1) ==> Resolves(es, dts, t2)
    ensures ResolvesFree(es, dts, t1) ==> ResolvesFree(es, dts, t2)
  {
    forall i | 0 <= i < |es| {
      ResolvedTypeStable(es[i], t1, t2);
    }
  }

  lemma TableFreeResolve(e: Exp, t1: Table, t2: Table)
    ensures TableFree(e) ==> ResolvedType(e, t1) == ResolvedType(e, t2)
  {
  }

  lemma TableFreeResolves(es: seq<Exp>, dts: seq<Option<Dec>>, t1: Table, t2: Table)
    ensures ResolvesFree(es, dts, t1) ==> ResolvesFree(es, dts, t2)
  {
    forall i | 0 <= i < |es| {
      TableFreeResolve(es[i], t1, t2);
    }
  }

  /** A log that ends with at most the main report, after a walk that adds
      only positioned reports: the walk added none. */
  lemma WalkWithoutReports(before: seq<Report>, walk: seq<Report>, after: seq<Report>)
    requires Extends(before, walk) && |walk| <= |after| && after[..|walk|] == walk
    ensures after[|before|..] <= [MissingMain] ==> |walk| == |before|
  {
    if |walk| > |before| {
      assert after[|before|..][0] == walk[|before|];
    }
  }

  /** The callee's front entry is a variable: the cast in visit(CallExp)
      fails. */
  predicate CalleeIsVariable(t: Table, f: string) {
    FrontDec(t, f).Some? && FrontDec(t, f).value.VarDecl?
  }

  /** What a call that did not abort leaves: its type is the callee's front
      entry, a function; `check` is the outcome of matching the arguments'
      types `dts` with its parameters'; the log `after` is `before` followed
      by the report of an undeclared callee and then the report of that
      outcome. */
  ghost predicate CallReported(e: Exp, level: int, t: Table, dts: seq<Option<Dec>>, dtype: Option<Dec>, check: ArgCheck,
                               before: seq<Report>, after: seq<Report>)
    requires e.CallExp?
  {
    dtype == FrontDec(t, e.func) &&
    (dtype.Some? ==> dtype.value.FunctionDec? && |dts| == |e.args| &&
                     ArgCheckFits(check, ArgTypes(dts), ParamTypes(dtype.value.params))) &&
    after == before +
      (if IsDeclared(t, e.func, level) then [] else [At(e.row, e.col, UndeclaredFunctionMsg(e.func))]) +
      (if dtype.Some? then ArgumentReport(e.row, e.col, e.args, check) else [])
  }

  lemma KeysGrow(ds: seq<Dec>, i: int, before: set<string>, after: set<string>)
    requires 0 <= i < |ds| && before <= after && (Registers(ds[i]) ==> ds[i].Name() in after)
    ensures (forall j :: 0 <= j < i && Registers(ds[j]) ==> ds[j].Name() in before) ==>
            (forall j :: 0 <= j < i + 1 && Registers(ds[j]) ==> ds[j].Name() in after)
  {
  }

  /** One declaration of a walk that makes no report: the stacks stay
      those of adding the list so far. */
  lemma AddedAllStep(t0: Table, before: Table, after: Table, ds: seq<Dec>, i: int, level: int)
    requires 0 <= i < |ds|
    requires SameStacks(before, AddedAll(t0, ds[..i], level)) && SameStacks(after, Added(before, ds[i], level))
    ensures SameStacks(after, AddedAll(t0, ds[..i + 1], level))
  {
    AddedSameStacks(before, AddedAll(t0, ds[..i], level), ds[i], level);
    assert ds[..i + 1][..i] == ds[..i];
    SameStacksTrans(after, Added(before, ds[i], level), AddedAll(t0, ds[..i + 1], level));
  }

  lemma SameStacksTrans(t1: Table, t2: Table, t3: Table)
    requires SameStacks(t1, t2) && SameStacks(t2, t3)
    ensures SameStacks(t1, t3)
  {
  }

  /** The trace lines around a block; a function's own body, at level 1,
      has none. */
  function BlockOpen(level: int): string {
    if level != 1 then Indent(level) + "Entering block:\n" else ""
  }

  /** The trace lines around a defined function's scope, after the indent. */
  function EnterFunctionLine(f: string): string {
    "Entering the scope for function " + f + ":\n"
  }

  function LeaveFunctionLine(): string {
    "Leaving the function scope\n"
  }

  function BlockClose(level: int): string {
    if level != 1 then Indent(level) + "Leaving block\n" else ""
  }

  class SemanticAnalyzer {
    var table: Table
    var errors: seq<Report>
    var output: string
    var aborted: bool

    ghost predicate Valid()
      reads this
    {
      WellFormed(table)
    }

    /** What every visit keeps: the log only grows by positioned reports,
        keys are never deleted, the table stays well formed, and the trace
        is only appended to. */
    ghost predicate Progress(oldErrors: seq<Report>, oldKeys: set<string>, oldOutput: string)
      reads this
    {
      Extends(oldErrors, errors) && oldKeys <= table.Keys && WellFormed(table) && oldOutput <= output
    }

    /** initSymbolTable: the two builtins at the root level. */
    constructor ()
      ensures Valid() && errors == [] && output == "" && !aborted
      ensures table == BuiltinTable
    {
      table := map[];
      errors := [];
      output := "";
      aborted := false;
      new;
      AddSymbol(InputFunc, ROOT_LEVEL);
      assert Stack(map[], "input") == [];
      assert [NodeType("input", InputFunc, ROOT_LEVEL)] + [] == [NodeType("input", InputFunc, ROOT_LEVEL)];
      assert table == map["input" := [NodeType("input", InputFunc, ROOT_LEVEL)]];
      ghost var t1 := table;
      AddSymbol(OutputFunc, ROOT_LEVEL);
      assert Stack(t1, "output") == [];
      assert [NodeType("output", OutputFunc, ROOT_LEVEL)] + [] == [NodeType("output", OutputFunc, ROOT_LEVEL)];
    }

    /** checkDecConflict: the first entry, newest first, of the same name,
        level and category. */
    method CheckDecConflict(stack: seq<NodeType>, dec: Dec, level: int) returns (conflict: Option<NodeType>)
      ensures conflict == FirstConflict(stack, dec, level)
    {
      var i := 0;
      while i < |stack|
        invariant 0 <= i <= |stack|
        invariant forall j :: 0 <= j < i ==> !Clashes(stack[j], dec, level)
      {
        if stack[i].name == dec.Name() && level == stack[i].level {
          if SameCategory(stack[i].def, dec) {
            return Some(stack[i]);
          }
        }
        i := i + 1;
      }
      return None;
    }

    method AddSymbol(dec: Dec, level: int)
      requires Valid()
      modifies this
      ensures Valid() && table == Added(old(table), dec, level)
      ensures errors == old(errors) + AddReports(old(table), dec, level)
      ensures output == old(output) && aborted == old(aborted)
    {
      AddedWellFormed(table, dec, level, dec.Name());
      var name := dec.Name();
      var entry := NodeType(name, dec, level);
      if name in table {
        var decStack := table[name];
        assert Stack(table, name) == decStack;
        var conflict := CheckDecConflict(decStack, dec, level);
        if conflict.Some? {
          var conflictDec := conflict.value.def;
          if conflictDec.FunctionDec? && conflictDec.body.NilExp? && dec.FunctionDec? && !dec.body.NilExp? {
            return;
          }
          errors := errors + [At(dec.Row(), dec.Col(), RedeclaredMsg(dec.FunctionDec?, name))];
        } else {
          table := table[name := [entry] + decStack];
        }
      } else {
        assert Stack(table, name) == [] && [entry] + [] == [entry];
        table := table[name := [entry]];
      }
    }

    method RemoveSymbol(dec: Dec) returns (removed: bool)
      requires Valid()
      modifies this
      ensures Valid() && table == Removed(old(table), dec.Name())
      ensures removed <==> dec.Name() in old(table) && |old(table)[dec.Name()]| > 0
      ensures errors == old(errors) && output == old(output) && aborted == old(aborted)
    {
      AddedWellFormed(table, dec, 0, dec.Name());
      var name := dec.Name();
      if name in table {
        var decStack := table[name];
        if |decStack| > 0 {
          table := table[name := decStack[1..]];
          return true;
        }
      }
      return false;
    }

    /** indent: one space at a time. */
    method AppendIndent(level: int)
      modifies this
      ensures output == old(output) + Indent(level)
      ensures table == old(table) && errors == old(errors) && aborted == old(aborted)
    {
      var i := 0;
      while i < level * SPACES
        invariant 0 <= i && (level > 0 ==> i <= level * SPACES) && (level <= 0 ==> i == 0)
        invariant output == old(output) + seq(i, _ => ' ')
        invariant table == old(table) && errors == old(errors) && aborted == old(aborted)
      {
        assert seq(i + 1, _ => ' ') == seq(i, _ => ' ') + " ";
        output := output + " ";
        i := i + 1;
      }
      if level <= 0 {
        assert |seq(i, _ => ' ')| == 0;
      }
    }

    /** displayDec. */
    method DisplayDec(d: Dec)
      modifies this
      ensures output == old(output) + DecLine(d)
      ensures table == old(table) && errors == old(errors) && aborted == old(aborted)
    {
      match d
      case VarDecl(v) =>
        output := output + v.name + ": " + TypeName(v.typ) + (if v.ArrayDec? then "[]" else "") + "\n";
      case FunctionDec(_, _, _, _, _, _) =>
        DisplayFunctionDec(d);
    }

    /** displayFunctionDec: the parameter types joined by ", ", or "void". */
    method DisplayFunctionDec(d: Dec)
      requires d.FunctionDec?
      modifies this
      ensures output == old(output) + DecLine(d)
      ensures table == old(table) && errors == old(errors) && aborted == old(aborted)
    {
      ghost var o := output;
      output := output + d.func + ": (";
      DisplayParams(d.params);
      output := output + ") -> " + TypeName(d.result) + "\n";
      AppendLine(o, d.func, ": (", if d.params == [] then "void" else ParamList(d.params), ") -> ", TypeName(d.result), "\n");
    }

    /** The loop of displayFunctionDec over the parameter list. */
    method DisplayParams(params: seq<VarDec>)
      modifies this
      ensures output == old(output) + (if params == [] then "void" else ParamList(params))
      ensures table == old(table) && errors == old(errors) && aborted == old(aborted)
    {
      var numParams := 0;
      if |params| > 0 {
        while numParams < |params|
          invariant 0 <= numParams <= |params|
          invariant output == old(output) + ParamList(params[..numParams])
          invariant table == old(table) && errors == old(errors) && aborted == old(aborted)
        {
          ParamListStep(params, numParams);
          ghost var sep := if numParams > 0 then ", " else "";
          Assoc3(old(output), ParamList(params[..numParams]), sep, TypeName(params[numParams].typ));
          if numParams > 0 {
            output := output + ", ";
          }
          output := output + TypeName(params[numParams].typ);
          numParams := numParams + 1;
        }
        assert params[..numParams] == params;
      } else {
        output := output + "void";
      }
    }

    /** removeVarDecListSymbols / removeDecListSymbols: pop one entry per
        declaration, in list order, and trace each one actually popped. */
    method RemoveDecListSymbols(ds: seq<Dec>, level: int)
      requires Valid()
      modifies this
      ensures Valid() && table == RemoveAll(old(table), Names(ds))
      ensures output == old(output) + RemovalTrace(old(table), ds, level)
      ensures errors == old(errors) && aborted == old(aborted)
      ensures table.Keys == old(table).Keys
    {
      var i := 0;
      while i < |ds|
        invariant 0 <= i <= |ds|
        invariant Valid() && table == RemoveAll(old(table), Names(ds[..i]))
        invariant output == old(output) + RemovalTrace(old(table), ds[..i], level)
        invariant errors == old(errors) && aborted == old(aborted)
        invariant table.Keys == old(table).Keys
      {
        RemovalStep(old(table), ds, i, level);
        var removed := RemoveSymbol(ds[i]);
        if removed {
          AppendIndent(level);
          DisplayDec(ds[i]);
          AppendTrace(old(output), RemovalTrace(old(table), ds[..i], level), Indent(level), DecLine(ds[i]));
        } else {
          assert RemovalTrace(old(table), ds[..i], level) + "" == RemovalTrace(old(table), ds[..i], level);
        }
        i := i + 1;
      }
      assert ds[..i] == ds;
    }

    /** visit(SimpleDec) and visit(ArrayDec): a VOID variable is reported and
        not registered; any other is passed to addSymbol. */
    method VisitVarDec(v: VarDec, level: int)
      requires Valid()
      modifies this
      ensures Valid()
      ensures table == if v.typ.typ == VOID then old(table) else Added(old(table), VarDecl(v), level)
      ensures errors == old(errors) +
        if v.typ.typ == VOID then [At(v.row, v.col, VoidVariableMsg)] else AddReports(old(table), VarDecl(v), level)
      ensures output == old(output) && aborted == old(aborted)
    {
      if v.typ.typ == VOID {
        errors := errors + [At(v.row, v.col, VoidVariableMsg)];
      } else {
        AddSymbol(VarDecl(v), level);
      }
    }

    /** visit(VarDecList): each variable registered in list order, as
        RegisterAll and RegisterReports state; when no report is made,
        every variable was pushed. */
    method VisitVarDecs(vs: seq<VarDec>, level: int)
      requires Valid()
      modifies this
      ensures Valid() && Progress(old(errors), old(table).Keys, old(output))
      ensures table == RegisterAll(old(table), Lift(vs), level)
      ensures errors == old(errors) + RegisterReports(old(table), Lift(vs), level)
      ensures |errors| == |old(errors)| ==> table == PushAll(old(table), vs, level)
      ensures output == old(output) && aborted == old(aborted)
    {
      var i := 0;
      while i < |vs|
        invariant 0 <= i <= |vs|
        invariant Valid() && VarDecsVisited(vs, i, level, old(table), old(errors))
        invariant output == old(output) && aborted == old(aborted)
      {
        VisitVarDecAt(vs, i, level, old(table), old(errors));
        i := i + 1;
      }
      assert vs[..i] == vs;
    }

    /** What visit(VarDecList) keeps after the first `i` variables. */
    ghost predicate VarDecsVisited(vs: seq<VarDec>, i: int, level: int, t0: Table, e0: seq<Report>)
      requires 0 <= i <= |vs|
      reads this
    {
      Extends(e0, errors) && t0.Keys <= table.Keys &&
      table == RegisterAll(t0, Lift(vs[..i]), level) &&
      errors == e0 + RegisterReports(t0, Lift(vs[..i]), level) &&
      (|errors| == |e0| ==> table == PushAll(t0, vs[..i], level))
    }

    /** One step of visit(VarDecList). */
    method VisitVarDecAt(vs: seq<VarDec>, i: int, level: int, ghost t0: Table, ghost e0: seq<Report>)
      requires 0 <= i < |vs| && Valid() && VarDecsVisited(vs, i, level, t0, e0)
      modifies this
      ensures Valid() && VarDecsVisited(vs, i + 1, level, t0, e0)
      ensures output == old(output) && aborted == old(aborted)
    {
      ghost var tb := table;
      ghost var errs := errors;
      ghost var d := VarDecl(vs[i]);
      RegisterStep(t0, vs, i, level);
      AddedKeysAndReports(tb, d, level);
      VisitVarDec(vs[i], level);
      assert table == RegisterAll(t0, Lift(vs[..i + 1]), level);
      assert errors == e0 + RegisterReports(t0, Lift(vs[..i + 1]), level);
      assert Extends(errs, errors);
      if |errors| == |e0| {
        assert |errs| == |e0| && vs[i].typ.typ != VOID;
        PushAllStep(t0, vs, i, level);
        VarAddedSilentlyIsPushed(tb, vs[i], level);
      }
      ExtendsTrans(e0, errs, errors);
    }

    /** The ExpList visits, in order. Each statement whose dtype does not
        depend on the table resolves as ResolvedType says; when no report is
        made, every one does, in the table the list leaves behind. */
    method VisitExps(es: seq<Exp>, level: int) returns (dtypes: seq<Option<Dec>>)
      requires Valid() && !aborted
      modifies this
      ensures Valid() && Progress(old(errors), old(table).Keys, old(output))
      ensures !aborted ==> ResolvesFree(es, dtypes, table)
      ensures !aborted && |errors| == |old(errors)| ==> SameStacks(table, old(table)) && Resolves(es, dtypes, table)
      ensures (forall i :: 0 <= i < |es| ==> Quiet(es[i])) ==>
        errors == old(errors) && table == old(table) && output == old(output) && !aborted
      decreases es
    {
      dtypes := [];
      var i := 0;
      while i < |es|
        invariant 0 <= i <= |es|
        invariant Valid() && Progress(old(errors), old(table).Keys, old(output)) && !aborted
        invariant ResolvesFree(es[..i], dtypes, table)
        invariant |errors| == |old(errors)| ==> SameStacks(table, old(table)) && Resolves(es[..i], dtypes, table)
        invariant (forall j :: 0 <= j < |es| ==> Quiet(es[j])) ==>
          errors == old(errors) && table == old(table) && output == old(output)
      {
        ghost var errs := errors;
        ghost var tb := table;
        var dt := VisitExp(es[i], level);
        ExtendsTrans(old(errors), errs, errors);
        if aborted {
          return;
        }
        TableFreeResolves(es[..i], dtypes, tb, table);
        if |errors| == |old(errors)| {
          ResolvesStable(es[..i], dtypes, tb, table);
        }
        assert es[..i + 1] == es[..i] + [es[i]];
        dtypes := dtypes + [dt];
        i := i + 1;
      }
      assert es[..i] == es;
    }

    /** visit(CompoundExp): a block opens a scope one level deeper, traced
        except for a function's own body at level 1. */
    method VisitCompoundExp(e: Exp, level: int) returns (dtypes: seq<Option<Dec>>, ghost scope: Table, ghost body: string)
      requires e.CompoundExp? && Valid() && !aborted
      modifies this
      ensures Valid() && Progress(old(errors), old(table).Keys, old(output))
      ensures !aborted ==> (table == RemoveAll(scope, Names(Lift(e.decs))) && ResolvesFree(e.exps, dtypes, scope))
      ensures !aborted ==>
        output == old(output) + BlockOpen(level) + body + RemovalTrace(scope, Lift(e.decs), level + 1) + BlockClose(level)
      ensures !aborted && |errors| == |old(errors)| ==>
        SameStacks(table, old(table)) && SameStacks(scope, PushAll(old(table), e.decs, level + 1)) &&
        Resolves(e.exps, dtypes, PushAll(old(table), e.decs, level + 1))
      decreases e, 1
    {
      AppendBlockLine(level, "Entering block:\n");
      dtypes, scope, body := VisitBlockScope(e, level);
      if aborted {
        return;
      }
      AppendBlockLine(level, "Leaving block\n");
    }

    /** One of the trace lines around a block, left out at level 1. */
    method AppendBlockLine(level: int, line: string)
      modifies this
      ensures output == old(output) + (if level != 1 then Indent(level) + line else "")
      ensures table == old(table) && errors == old(errors) && aborted == old(aborted)
    {
      if level != 1 {
        AppendTraceLine(level, line);
      }
    }

    /** The scope of a block: its declarations are pushed at level + 1, its
        statements visited there, and the declarations popped, with their
        trace, when it closes. `scope` is the table just before the pops
        and `body` the trace of the statements. */
    method VisitBlockScope(e: Exp, level: int) returns (dtypes: seq<Option<Dec>>, ghost scope: Table, ghost body: string)
      requires e.CompoundExp? && Valid() && !aborted
      modifies this
      ensures Valid() && Progress(old(errors), old(table).Keys, old(output))
      ensures !aborted ==> (table == RemoveAll(scope, Names(Lift(e.decs))) && ResolvesFree(e.exps, dtypes, scope))
      ensures !aborted ==> output == old(output) + body + RemovalTrace(scope, Lift(e.decs), level + 1)
      ensures !aborted && |errors| == |old(errors)| ==>
        SameStacks(table, old(table)) && SameStacks(scope, PushAll(old(table), e.decs, level + 1)) &&
        Resolves(e.exps, dtypes, PushAll(old(table), e.decs, level + 1))
      decreases e, 0
    {
      VisitVarDecs(e.decs, level + 1);
      ghost var errs1 := errors;
      ghost var t1 := table;
      dtypes := VisitExps(e.exps, level + 1);
      ExtendsTrans(old(errors), errs1, errors);
      scope := table;
      body := output[|old(output)|..];
      if aborted {
        return;
      }
      assert output == old(output) + body;
      RemoveDecListSymbols(Lift(e.decs), level + 1);
      if |errors| == |old(errors)| {
        assert t1 == PushAll(old(table), e.decs, level + 1);
        ScopeRestores(old(table), scope, e.decs, level + 1);
        ResolvesStable(e.exps, dtypes, scope, PushAll(old(table), e.decs, level + 1));
      }
    }

    /** visit(IndexVar) reports an index that is not an int, at the index;
        visit(SimpleVar) does nothing. `dt` is the index's dtype and `sub`
        the log after visiting it. */
    method VisitVar(v: Var, level: int) returns (ghost dt: Option<Dec>, ghost sub: seq<Report>)
      requires Valid() && !aborted
      modifies this
      ensures Valid() && Progress(old(errors), old(table).Keys, old(output))
      ensures !aborted && |errors| == |old(errors)| ==> SameStacks(table, old(table))
      ensures v.SimpleVar? ==> errors == old(errors) && table == old(table) && output == old(output) && !aborted
      ensures v.IndexVar? && !aborted ==> (Extends(old(errors), sub) &&
        errors == sub + (if IsType(dt, INT) then [] else [At(v.index.row, v.index.col, IntegerIndexMsg)]))
      ensures v.IndexVar? && !aborted && (ReadLast(v.index) || |sub| == |old(errors)|) ==>
        dt == ResolvedType(v.index, table)
      ensures v.IndexVar? && Quiet(v.index) ==> sub == old(errors) && table == old(table) && output == old(output) && !aborted
      decreases v
    {
      dt := None;
      sub := errors;
      if v.IndexVar? {
        var t := VisitExp(v.index, level);
        dt := t;
        sub := errors;
        if aborted {
          return;
        }
        if !IsType(t, INT) {
          errors := errors + [At(v.index.row, v.index.col, IntegerIndexMsg)];
        }
      }
    }

    /** visit(VarExp): after the variable's own visit, the name either is
        visible at this level, or is reported at the variable; the dtype is
        the name's front entry either way. */
    method VisitVarExp(e: Exp, level: int) returns (dtype: Option<Dec>, ghost sub: seq<Report>)
      requires e.VarExp? && Valid() && !aborted
      modifies this
      ensures Valid() && Progress(old(errors), old(table).Keys, old(output))
      ensures !aborted && |errors| == |old(errors)| ==> SameStacks(table, old(table))
      ensures !aborted ==> (dtype == FrontDec(table, e.variable.name) && Extends(old(errors), sub) &&
        errors == sub + (if IsDeclared(table, e.variable.name, level) then []
                         else [At(e.variable.row, e.variable.col, UndeclaredVariableMsg(e.variable.name))]))
      ensures e.variable.SimpleVar? ==> sub == old(errors) && table == old(table) && output == old(output) && !aborted
      decreases e, 0
    {
      dtype := None;
      ghost var dt;
      dt, sub := VisitVar(e.variable, level);
      sub := errors;
      if aborted {
        return;
      }
      dtype := FrontDec(table, e.variable.name);
      if !IsDeclared(table, e.variable.name, level) {
        errors := errors + [At(e.variable.row, e.variable.col, UndeclaredVariableMsg(e.variable.name))];
      }
    }

    /** visit(CallExp): after the arguments, the callee is checked as in
        CheckCallee. `argTypes` are the arguments' dtypes and `sub` the log
        after them. */
    method VisitCallExp(e: Exp, level: int) returns (dtype: Option<Dec>, ghost argTypes: seq<Option<Dec>>,
                                                     ghost check: ArgCheck, ghost sub: seq<Report>)
      requires e.CallExp? && Valid() && !aborted
      modifies this
      ensures Valid() && Progress(old(errors), old(table).Keys, old(output))
      ensures !aborted && |errors| == |old(errors)| ==> SameStacks(table, old(table))
      ensures !aborted ==> (Extends(old(errors), sub) && ResolvesFree(e.args, argTypes, table))
      ensures !aborted && |sub| == |old(errors)| ==> Resolves(e.args, argTypes, table)
      ensures !aborted ==> CallReported(e, level, table, argTypes, dtype, check, sub, errors)
      ensures (forall i :: 0 <= i < |e.args| ==> Quiet(e.args[i])) ==>
        (sub == old(errors) && (aborted <==> CalleeIsVariable(old(table), e.func)))
      decreases e, 0
    {
      dtype := None;
      check := ArgsMatch;
      var dts := VisitExps(e.args, level);
      argTypes := dts;
      sub := errors;
      if aborted {
        return;
      }
      dtype, check := CheckCallee(e, level, dts);
    }

    /** The callee of a call whose arguments resolved to `dts`: a callee not
        visible at this level is reported at the call; the call's type is
        the callee's front entry; a callee that is a variable ends the
        analysis; against a function the arguments' types are matched with
        the parameters', and the outcome `check` of that match makes at most
        one report. */
    method CheckCallee(e: Exp, level: int, dts: seq<Option<Dec>>) returns (dtype: Option<Dec>, ghost check: ArgCheck)
      requires e.CallExp? && Valid() && !aborted && |dts| == |e.args|
      modifies this
      ensures Valid() && Extends(old(errors), errors)
      ensures table == old(table) && output == old(output)
      ensures aborted <==> CalleeIsVariable(table, e.func)
      ensures !aborted ==> CallReported(e, level, table, dts, dtype, check, old(errors), errors)
    {
      check := ArgsMatch;
      if !IsDeclared(table, e.func, level) {
        errors := errors + [At(e.row, e.col, UndeclaredFunctionMsg(e.func))];
      }
      ghost var errs := errors;
      dtype := FrontDec(table, e.func);
      if dtype.Some? {
        if dtype.value.VarDecl? {
          aborted := true;
          return;
        }
        var c := CheckArguments(ArgTypes(dts), ParamTypes(dtype.value.params));
        check := c;
        match c
        case ArgsMatch =>
        case ArityAtCall =>
          errors := errors + [At(e.row, e.col, ArgumentsMsg)];
        case MismatchAt(i) =>
          errors := errors + [At(e.args[i].row, e.args[i].col, ArgumentsMsg)];
        assert errors == errs + ArgumentReport(e.row, e.col, e.args, check);
      }
    }

    /** visit(OpExp): the result is always the operator's output type, and
        the reports the operator's typing rule makes on its operands' types
        end the log. `lt` and `rt` are the operands' dtypes, `sub` the log
        after both operands. */
    method VisitOpExp(e: Exp, level: int) returns (dtype: Option<Dec>, lt: Option<Dec>, rt: Option<Dec>, ghost sub: seq<Report>)
      requires e.OpExp? && Valid() && !aborted
      modifies this
      ensures Valid() && Progress(old(errors), old(table).Keys, old(output))
      ensures !aborted && |errors| == |old(errors)| ==> SameStacks(table, old(table))
      ensures !aborted ==> (dtype == Some(DummyDec(OperatorOutputType(e.op))) &&
        Extends(old(errors), sub) && errors == sub + OperatorReports(e, TypeOf(lt), TypeOf(rt)))
      ensures !aborted && |sub| == |old(errors)| ==> lt == ResolvedType(e.left, table) && rt == ResolvedType(e.right, table)
      ensures !aborted && TableFree(e.left) ==> lt == ResolvedType(e.left, table)
      ensures !aborted && ReadLast(e.right) ==> rt == ResolvedType(e.right, table)
      ensures Quiet(e.left) && Quiet(e.right) ==> sub == old(errors) && table == old(table) && output == old(output) && !aborted
      decreases e, 0
    {
      dtype := None;
      rt := None;
      lt := VisitExp(e.left, level);
      sub := errors;
      if aborted {
        return;
      }
      ghost var errs := errors;
      ghost var tl := table;
      rt := VisitExp(e.right, level);
      ExtendsTrans(old(errors), errs, errors);
      sub := errors;
      if aborted {
        return;
      }
      if |errors| == |old(errors)| {
        ResolvedTypeStable(e.left, tl, table);
      }
      TableFreeResolve(e.left, tl, table);
      dtype := Some(DummyDec(OperatorOutputType(e.op)));
      errors := errors + OperatorReports(e, TypeOf(lt), TypeOf(rt));
    }

    /** visit(AssignExp): the assignment takes its left side's type; the
        two sides' types must agree, or the assignment is reported. `rt` is
        the right side's dtype, `sub` the log after both sides. */
    method VisitAssignExp(e: Exp, level: int) returns (dtype: Option<Dec>, rt: Option<Dec>, ghost sub: seq<Report>)
      requires e.AssignExp? && Valid() && !aborted
      modifies this
      ensures Valid() && Progress(old(errors), old(table).Keys, old(output))
      ensures !aborted && |errors| == |old(errors)| ==> SameStacks(table, old(table))
      ensures !aborted ==> (Extends(old(errors), sub) &&
        errors == sub + (if TypeOf(dtype) == TypeOf(rt) then [] else [At(e.row, e.col, AssignMismatchMsg)]))
      ensures !aborted && |sub| == |old(errors)| ==> dtype == ResolvedType(e.lhs, table) && rt == ResolvedType(e.rhs, table)
      ensures !aborted && TableFree(e.lhs) ==> dtype == ResolvedType(e.lhs, table)
      ensures !aborted && ReadLast(e.rhs) ==> rt == ResolvedType(e.rhs, table)
      ensures Quiet(e.lhs) && Quiet(e.rhs) ==> sub == old(errors) && table == old(table) && output == old(output) && !aborted
      decreases e, 0
    {
      rt := None;
      dtype := VisitExp(e.lhs, level);
      sub := errors;
      if aborted {
        return;
      }
      ghost var errs := errors;
      ghost var tl := table;
      rt := VisitExp(e.rhs, level);
      ExtendsTrans(old(errors), errs, errors);
      sub := errors;
      if aborted {
        return;
      }
      if |errors| == |old(errors)| {
        ResolvedTypeStable(e.lhs, tl, table);
      }
      TableFreeResolve(e.lhs, tl, table);
      if TypeOf(dtype) != TypeOf(rt) {
        errors := errors + [At(e.row, e.col, AssignMismatchMsg)];
      }
    }

    /** visit(IfExp): the test must resolve to a bool variable type, or it
        is reported at the test. `tt` is the test's dtype, `sub` the log
        after the three parts. */
    method VisitIfExp(e: Exp, level: int) returns (tt: Option<Dec>, ghost sub: seq<Report>)
      requires e.IfExp? && Valid() && !aborted
      modifies this
      ensures Valid() && Progress(old(errors), old(table).Keys, old(output))
      ensures !aborted && |errors| == |old(errors)| ==> SameStacks(table, old(table))
      ensures !aborted ==> (Extends(old(errors), sub) &&
        errors == sub + (if IsType(tt, BOOL) then [] else [At(e.test.row, e.test.col, BooleanTestMsg)]))
      ensures !aborted && (TableFree(e.test) || |sub| == |old(errors)|) ==> tt == ResolvedType(e.test, table)
      ensures Quiet(e.test) && Quiet(e.thenpart) && Quiet(e.elsepart) ==>
        sub == old(errors) && table == old(table) && output == old(output) && !aborted
      decreases e, 0
    {
      tt := VisitExp(e.test, level);
      sub := errors;
      if aborted {
        return;
      }
      ghost var tl := table;
      ghost var errs1 := errors;
      var _ := VisitExp(e.thenpart, level);
      ExtendsTrans(old(errors), errs1, errors);
      sub := errors;
      if aborted {
        return;
      }
      ghost var errs2 := errors;
      ghost var tm := table;
      var _ := VisitExp(e.elsepart, level);
      ExtendsTrans(old(errors), errs2, errors);
      sub := errors;
      if aborted {
        return;
      }
      if |errors| == |old(errors)| {
        SameStacksTrans(table, tm, tl);
        ResolvedTypeStable(e.test, tl, table);
      }
      TableFreeResolve(e.test, tl, table);
      if !IsType(tt, BOOL) {
        errors := errors + [At(e.test.row, e.test.col, BooleanTestMsg)];
      }
    }

    /** visit(WhileExp): the test must resolve to a bool variable type, or
        it is reported at the test. `tt` is the test's dtype, `sub` the log
        after the test and the body. */
    method VisitWhileExp(e: Exp, level: int) returns (tt: Option<Dec>, ghost sub: seq<Report>)
      requires e.WhileExp? && Valid() && !aborted
      modifies this
      ensures Valid() && Progress(old(errors), old(table).Keys, old(output))
      ensures !aborted && |errors| == |old(errors)| ==> SameStacks(table, old(table))
      ensures !aborted ==> (Extends(old(errors), sub) &&
        errors == sub + (if IsType(tt, BOOL) then [] else [At(e.test.row, e.test.col, BooleanTestMsg)]))
      ensures !aborted && (TableFree(e.test) || |sub| == |old(errors)|) ==> tt == ResolvedType(e.test, table)
      ensures Quiet(e.test) && Quiet(e.body) ==> sub == old(errors) && table == old(table) && output == old(output) && !aborted
      decreases e, 0
    {
      tt := VisitExp(e.test, level);
      sub := errors;
      if aborted {
        return;
      }
      ghost var errs := errors;
      ghost var tl := table;
      var _ := VisitExp(e.body, level);
      ExtendsTrans(old(errors), errs, errors);
      sub := errors;
      if aborted {
        return;
      }
      if |errors| == |old(errors)| {
        ResolvedTypeStable(e.test, tl, table);
      }
      TableFreeResolve(e.test, tl, table);
      if !IsType(tt, BOOL) {
        errors := errors + [At(e.test.row, e.test.col, BooleanTestMsg)];
      }
    }

    /** The Exp visits. The dtype returned is ResolvedType in the table the
        visit leaves, except that an assignment's or a return's may have been
        read before a scope inside it changed the table; when no report is
        made it is ResolvedType for every form, and the table's stacks come
        back as they were (every scope opened inside is closed again). The
        literals and nil change nothing. */
    method VisitExp(e: Exp, level: int) returns (dtype: Option<Dec>)
      requires Valid() && !aborted
      modifies this
      ensures Valid() && Progress(old(errors), old(table).Keys, old(output))
      ensures !aborted && |errors| == |old(errors)| ==> SameStacks(table, old(table)) && dtype == ResolvedType(e, table)
      ensures !aborted && ReadLast(e) ==> dtype == ResolvedType(e, table)
      ensures Quiet(e) ==> errors == old(errors) && table == old(table) && output == old(output) && !aborted
      decreases e, 2
    {
      dtype := None;
      match e
      case NilExp(_, _) =>
        dtype := None;
      case IntExp(_, _, _) =>
        dtype := Some(DummyDec(INT));
      case BoolExp(_, _, _) =>
        dtype := Some(DummyDec(BOOL));
      case VarExp(_, _, _) =>
        ghost var sub;
        dtype, sub := VisitVarExp(e, level);
      case CallExp(_, _, _, _) =>
        ghost var argTypes, check, sub;
        dtype, argTypes, check, sub := VisitCallExp(e, level);
      case OpExp(_, _, _, _, _) =>
        var lt, rt;
        ghost var sub;
        dtype, lt, rt, sub := VisitOpExp(e, level);
      case AssignExp(_, _, _, _) =>
        var rt;
        ghost var sub;
        dtype, rt, sub := VisitAssignExp(e, level);
      case IfExp(_, _, _, _, _) =>
        var tt;
        ghost var sub;
        tt, sub := VisitIfExp(e, level);
      case WhileExp(_, _, _, _) =>
        var tt;
        ghost var sub;
        tt, sub := VisitWhileExp(e, level);
      case ReturnExp(_, _, x) =>
        dtype := VisitExp(x, level);
      case CompoundExp(_, _, _, _) =>
        var dts;
        ghost var scope, body;
        dts, scope, body := VisitCompoundExp(e, level);
        dtype := None;
    }

    /** visit(FunctionDec): the function is registered at `level`; unless it
        is a prototype, its scope is then traced and checked. */
    method VisitFunctionDec(d: Dec, level: int)
      requires d.FunctionDec? && Valid() && !aborted
      modifies this
      ensures Valid() && Progress(old(errors), old(table).Keys, old(output))
      ensures d.Name() in table
      ensures d.IsPrototype() ==>
        (table == Added(old(table), d, level) &&
         errors == old(errors) + AddReports(old(table), d, level) && output == old(output) && !aborted)
      ensures !aborted && |errors| == |old(errors)| ==> SameStacks(table, Added(old(table), d, level))
      decreases d, 1
    {
      var isPrototype := d.body.NilExp?;
      AddSymbol(d, level);
      MainStaysDeclared(old(table), d, level, "");
      if !isPrototype {
        ghost var errs1 := errors;
        ghost var inner := VisitFunctionScope(d, level);
        ExtendsTrans(old(errors), errs1, errors);
      }
    }

    /** The scope of a defined function, between its two trace lines at
        `level`; `inner` is the trace of the parameters and body. */
    method VisitFunctionScope(d: Dec, level: int) returns (ghost inner: string)
      requires d.FunctionDec? && !d.IsPrototype() && Valid() && !aborted
      modifies this
      ensures Valid() && Progress(old(errors), old(table).Keys, old(output))
      ensures !aborted && |errors| == |old(errors)| ==> SameStacks(table, old(table))
      ensures !aborted ==>
        output == old(output) + Indent(level) + EnterFunctionLine(d.func) + inner + Indent(level) + LeaveFunctionLine()
      decreases d, 0
    {
      AppendTraceLine(level, EnterFunctionLine(d.func));
      ghost var out1 := output;
      ghost var dts, bodyErrors, paramScope;
      dts, bodyErrors, paramScope, inner := VisitParamsAndBody(d, level);
      inner := output[|out1|..];
      if aborted {
        return;
      }
      assert output == out1 + inner;
      AppendTraceLine(level, LeaveFunctionLine());
    }

    /** One indented trace line. */
    method AppendTraceLine(level: int, line: string)
      modifies this
      ensures output == old(output) + Indent(level) + line
      ensures table == old(table) && errors == old(errors) && aborted == old(aborted)
    {
      AppendIndent(level);
      output := output + line;
    }

    /** The parameters are registered at level + 1 and the body visited at
        `level`, so that a top-level block declares its locals at level + 1
        too, the parameters' level; then the parameters are popped, with
        their trace. `paramScope` is the table just before those pops,
        `inner` the trace of the body; `dts` and `bodyErrors` are as in
        VisitFunctionBody. */
    method VisitParamsAndBody(d: Dec, level: int)
      returns (ghost dts: seq<Option<Dec>>, ghost bodyErrors: seq<Report>, ghost paramScope: Table, ghost inner: string)
      requires d.FunctionDec? && Valid() && !aborted
      modifies this
      ensures Valid() && Progress(old(errors), old(table).Keys, old(output))
      ensures !aborted && |errors| == |old(errors)| ==>
        SameStacks(table, old(table)) && SameStacks(paramScope, PushAll(old(table), d.params, level + 1))
      ensures !aborted ==> (table == RemoveAll(paramScope, Names(Lift(d.params))) &&
        output == old(output) + inner + RemovalTrace(paramScope, Lift(d.params), level + 1))
      ensures d.body.CompoundExp? && !aborted ==> (Extends(old(errors), bodyErrors) && |dts| == |d.body.exps| &&
        errors == bodyErrors + ReturnReports(d.body.exps, dts, d.result.typ))
      ensures d.body.CompoundExp? && !aborted && |bodyErrors| == |old(errors)| ==>
        Resolves(d.body.exps, dts, PushAll(PushAll(old(table), d.params, level + 1), d.body.decs, level + 1))
      decreases d, 0
    {
      ghost var t1 := table;
      VisitVarDecs(d.params, level + 1);
      ghost var t2 := table;
      ghost var errs2 := errors;
      ghost var scope;
      dts, scope, bodyErrors := VisitFunctionBody(d, level);
      ExtendsTrans(old(errors), errs2, errors);
      paramScope := table;
      inner := output[|old(output)|..];
      if aborted {
        return;
      }
      if d.body.CompoundExp? {
        ExtendsTrans(old(errors), errs2, bodyErrors);
      }
      assert output == old(output) + inner;
      RemoveDecListSymbols(Lift(d.params), level + 1);
      if |errors| == |old(errors)| {
        assert t2 == PushAll(t1, d.params, level + 1);
        ScopeRestores(t1, paramScope, d.params, level + 1);
      }
    }

    /** A function's body, and the return check on a block body's direct
        statements: the log ends with the reports ReturnReports makes on
        their dtypes `dts`; `bodyErrors` is the log before the check and
        `scope` the block's table before its pops. */
    method VisitFunctionBody(d: Dec, level: int)
      returns (ghost dts: seq<Option<Dec>>, ghost scope: Table, ghost bodyErrors: seq<Report>)
      requires d.FunctionDec? && Valid() && !aborted
      modifies this
      ensures Valid() && Progress(old(errors), old(table).Keys, old(output))
      ensures !aborted && |errors| == |old(errors)| ==> SameStacks(table, old(table))
      ensures d.body.CompoundExp? && !aborted ==>
        ResolvesFree(d.body.exps, dts, scope) && Extends(old(errors), bodyErrors) &&
        errors == bodyErrors + ReturnReports(d.body.exps, dts, d.result.typ)
      ensures d.body.CompoundExp? && !aborted && |bodyErrors| == |old(errors)| ==>
        Resolves(d.body.exps, dts, PushAll(old(table), d.body.decs, level + 1))
      decreases d, 0
    {
      dts := [];
      scope := table;
      bodyErrors := errors;
      if d.body.CompoundExp? {
        var types;
        ghost var body;
        types, scope, body := VisitCompoundExp(d.body, level);
        dts := types;
        bodyErrors := errors;
        if aborted {
          return;
        }
        var reports := CheckReturns(d.body.exps, types, d.result.typ);
        ReturnReportsSound(d.body.exps, types, d.result.typ);
        errors := errors + reports;
        assert Extends(bodyErrors, errors);
        ExtendsTrans(old(errors), bodyErrors, errors);
      } else {
        var _ := VisitExp(d.body, level);
      }
    }

    /** visit(VarDec) and visit(FunctionDec); when no report is made, the
        table's stacks are those of adding the declaration. */
    method VisitDec(d: Dec, level: int)
      requires Valid() && !aborted
      modifies this
      ensures Valid() && Progress(old(errors), old(table).Keys, old(output))
      ensures Registers(d) ==> d.Name() in table
      ensures !aborted && |errors| == |old(errors)| ==> SameStacks(table, Added(old(table), d, level))
      decreases d, 2
    {
      match d
      case VarDecl(v) =>
        VisitVarDec(v, level);
        MainStaysDeclared(old(table), d, level, "");
      case FunctionDec(_, _, _, _, _, _) =>
        VisitFunctionDec(d, level);
    }

    /** visit(DecList): the program's declarations in order; when no report
        is made, the table's stacks are those of adding them all. */
    method VisitDecs(ds: seq<Dec>, level: int)
      requires Valid() && !aborted
      modifies this
      ensures Valid() && Progress(old(errors), old(table).Keys, old(output))
      ensures !aborted ==> forall i :: 0 <= i < |ds| && Registers(ds[i]) ==> ds[i].Name() in table
      ensures !aborted && |errors| == |old(errors)| ==> SameStacks(table, AddedAll(old(table), ds, level))
    {
      var i := 0;
      while i < |ds|
        invariant 0 <= i <= |ds|
        invariant Valid() && !aborted && DecsVisited(ds, i, level, old(table), old(errors), old(output))
      {
        VisitDecAt(ds, i, level, old(table), old(errors), old(output));
        if aborted {
          return;
        }
        i := i + 1;
      }
      assert ds[..i] == ds;
    }

    /** What visit(DecList) keeps after the first `i` declarations. */
    ghost predicate DecsVisited(ds: seq<Dec>, i: int, level: int, t0: Table, e0: seq<Report>, o0: string)
      requires 0 <= i <= |ds|
      reads this
    {
      Progress(e0, t0.Keys, o0) &&
      (forall j :: 0 <= j < i && Registers(ds[j]) ==> ds[j].Name() in table) &&
      (|errors| == |e0| ==> SameStacks(table, AddedAll(t0, ds[..i], level)))
    }

    /** One step of visit(DecList). */
    method VisitDecAt(ds: seq<Dec>, i: int, level: int, ghost t0: Table, ghost e0: seq<Report>, ghost o0: string)
      requires 0 <= i < |ds| && Valid() && !aborted && DecsVisited(ds, i, level, t0, e0, o0)
      modifies this
      ensures Valid() && Progress(e0, t0.Keys, o0)
      ensures !aborted ==> DecsVisited(ds, i + 1, level, t0, e0, o0)
    {
      ghost var errs := errors;
      ghost var tb := table;
      VisitDec(ds[i], level);
      ExtendsTrans(e0, errs, errors);
      KeysGrow(ds, i, tb.Keys, table.Keys);
      if !aborted && |errors| == |e0| {
        AddedAllStep(t0, tb, table, ds, i, level);
      }
    }

    /** analyze: trace the global scope, walk the program at level 1, pop its
        declarations, and report a missing main. The main check reports
        exactly when no key "main" was ever registered; so a program that
        defines a function main is never reported. `scope` is the table
        before the global pops and `walk` the trace of the declarations.
        When the walk makes no report, every name that had no entry before
        the call, or that the program does not declare, gets its stack back. */
    method Analyze(program: seq<Dec>) returns (ghost scope: Table, ghost walk: string)
      requires Valid() && !aborted
      modifies this
      ensures Valid()
      ensures |old(errors)| <= |errors| && errors[..|old(errors)|] == old(errors)
      ensures !aborted ==> (MissingMain in errors[|old(errors)|..] <==> !IsMainDeclared(table))
      ensures !aborted && (exists i :: 0 <= i < |program| && program[i].FunctionDec? && program[i].func == MAIN_FUNCTION_NAME) ==>
        MissingMain !in errors[|old(errors)|..]
      ensures !aborted ==> (table == RemoveAll(scope, Names(program)) &&
        output == GLOBAL_ENTER + walk + RemovalTrace(scope, program, ROOT_LEVEL + 1) + GLOBAL_LEAVE)
      ensures !aborted && errors[|old(errors)|..] <= [MissingMain] ==>
        SameStacks(scope, AddedAll(old(table), program, ROOT_LEVEL + 1)) &&
        forall n :: Stack(old(table), n) == [] || Count(Names(program), n) == 0 ==> Stack(table, n) == Stack(old(table), n)
    {
      output := GLOBAL_ENTER;
      VisitDecs(program, ROOT_LEVEL + 1);
      scope := table;
      walk := output[|GLOBAL_ENTER|..];
      if aborted {
        return;
      }
      assert output == GLOBAL_ENTER + walk;
      ghost var errs0 := errors;
      RemoveDecListSymbols(program, ROOT_LEVEL + 1);
      output := output + GLOBAL_LEAVE;
      ghost var errs := errors;
      assert forall i :: |old(errors)| <= i < |errs| ==> errs[i] != MissingMain;
      if !IsMainDeclared(table) {
        errors := errors + [MissingMain];
      }
      assert errors[|old(errors)|..] == errs[|old(errors)|..] + (if IsMainDeclared(table) then [] else [MissingMain]);
      if errors[|old(errors)|..] <= [MissingMain] {
        WalkWithoutReports(old(errors), errs, errors);
        var added := AddedAll(old(table), program, ROOT_LEVEL + 1);
        RemoveAllSameStacks(scope, added, Names(program));
        forall n | Stack(old(table), n) == [] || Count(Names(program), n) == 0
          ensures Stack(table, n) == Stack(old(table), n)
        {
          ProgramScopeRestores(old(table), program, ROOT_LEVEL + 1, n);
          assert Stack(table, n) == Stack(RemoveAll(added, Names(program)), n);
        }
      }
    }
  }
}
