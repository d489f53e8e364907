/** The scoped symbol table of SemanticAnalyzer.java, as values.

    The Java table is a `HashMap<String, List<NodeType>>`: for each name a
    stack of entries with the newest at index 0. The analyzer class mutates
    it in place; the functions here state what each of its operations does to
    the table, and the lemmas state the scoping rules that follow. */
module SymbolTable {
  import opened Absyn
  import opened Errors

  /** One entry of a name's stack (NodeType): the declaration and the scope
      level it was registered at. */
  datatype NodeType = NodeType(name: string, def: Dec, level: int)

  type Table = map<string, seq<NodeType>>

  /** The stack of a name; a missing key reads as an empty stack. */
  function Stack(t: Table, n: string): seq<NodeType> {
    if n in t then t[n] else []
  }

  /** Every entry sits in the stack of its own name. */
  ghost predicate WellFormed(t: Table) {
    forall n, i :: n in t && 0 <= i < |t[n]| ==> t[n][i].name == n
  }

  /** Both variables or both functions. */
  predicate SameCategory(a: Dec, b: Dec) {
    (a.VarDecl? && b.VarDecl?) || (a.FunctionDec? && b.FunctionDec?)
  }

  /** The condition checkDecConflict tests for each entry. */
  predicate Clashes(e: NodeType, dec: Dec, level: int) {
    e.name == dec.Name() && level == e.level && SameCategory(e.def, dec)
  }

  /** The first clashing entry of a stack, in stack order (newest first). */
  function FirstConflict(stack: seq<NodeType>, dec: Dec, level: int): (r: Option<NodeType>)
    ensures r.Some? <==> exists i :: 0 <= i < |stack| && Clashes(stack[i], dec, level)
    ensures r.Some? ==> exists i :: 0 <= i < |stack| && stack[i] == r.value &&
                          Clashes(stack[i], dec, level) &&
                          forall j :: 0 <= j < i ==> !Clashes(stack[j], dec, level)
  {
    if stack == [] then None
    else if Clashes(stack[0], dec, level) then Some(stack[0])
    else
      var r := FirstConflict(stack[1..], dec, level);
      assert forall i :: 1 <= i < |stack| ==> stack[i] == stack[1..][i - 1];
      r
  }

  /** A body-carrying function definition does not clash with an earlier
      bodiless prototype of the same level. */
  predicate Exempt(conflict: NodeType, dec: Dec) {
    conflict.def.IsPrototype() && dec.FunctionDec? && !dec.body.NilExp?
  }

  /** The table with `dec` pushed on its name's stack at `level`. */
  function Pushed(t: Table, dec: Dec, level: int): Table {
    t[dec.Name() := [NodeType(dec.Name(), dec, level)] + Stack(t, dec.Name())]
  }

  /** What addSymbol leaves in the table: unchanged on a clash, else pushed. */
  function Added(t: Table, dec: Dec, level: int): Table {
    if FirstConflict(Stack(t, dec.Name()), dec, level).Some? then t else Pushed(t, dec, level)
  }

  /** What addSymbol reports: one redeclaration error on a clash that is not exempt. */
  function AddReports(t: Table, dec: Dec, level: int): seq<Report> {
    match FirstConflict(Stack(t, dec.Name()), dec, level)
    case None => []
    case Some(c) =>
      if Exempt(c, dec) then []
      else [At(dec.Row(), dec.Col(), RedeclaredMsg(dec.FunctionDec?, dec.Name()))]
  }

  /** What removeSymbol leaves: the name's front entry popped, if there is one.
      The key itself stays. */
  function Removed(t: Table, n: string): Table {
    if n in t && |t[n]| > 0 then t[n := t[n][1..]] else t
  }

  /** getDecType: the declaration of the name's front entry. */
  function FrontDec(t: Table, n: string): Option<Dec> {
    if n in t && |t[n]| > 0 then Some(t[n][0].def) else None
  }

  /** The loop of isDeclared over one stack. */
  function Visible(stack: seq<NodeType>, n: string, level: int): (r: bool)
    ensures r <==> exists i :: 0 <= i < |stack| && stack[i].name == n && stack[i].level <= level
  {
    if stack == [] then false
    else if stack[0].name == n && stack[0].level <= level then true
    else
      var r := Visible(stack[1..], n, level);
      assert forall i :: 1 <= i < |stack| ==> stack[i] == stack[1..][i - 1];
      r
  }

  /** isDeclared(var/call, level). */
  function IsDeclared(t: Table, n: string, level: int): bool {
    n in t && Visible(t[n], n, level)
  }

  /** isMainDeclared: a key "main" exists, whatever its stack holds. */
  predicate IsMainDeclared(t: Table) {
    "main" in t
  }

  /** Adding a name that has no clash makes it the front entry of its stack,
      above everything that was there (one entry if the name is new), so
      getDecType returns it and it shadows the outer declarations; no other
      name changes and nothing is reported. */
  lemma AddWithoutClashShadows(t: Table, dec: Dec, level: int, other: string)
    requires FirstConflict(Stack(t, dec.Name()), dec, level).None?
    ensures Stack(Added(t, dec, level), dec.Name()) ==
            [NodeType(dec.Name(), dec, level)] + Stack(t, dec.Name())
    ensures dec.Name() !in t ==> Added(t, dec, level)[dec.Name()] == [NodeType(dec.Name(), dec, level)]
    ensures FrontDec(Added(t, dec, level), dec.Name()) == Some(dec)
    ensures other != dec.Name() ==> Stack(Added(t, dec, level), other) == Stack(t, other)
    ensures AddReports(t, dec, level) == []
    ensures IsDeclared(Added(t, dec, level), dec.Name(), level)
  {
    var t' := Added(t, dec, level);
    assert t'[dec.Name()][0] == NodeType(dec.Name(), dec, level);
  }

  /** On a clash the table is unchanged, the earlier entry stays
      authoritative, and exactly one error is reported unless the clash is a
      prototype followed by its definition, which reports nothing. */
  lemma AddWithClashKeepsFirst(t: Table, dec: Dec, level: int)
    requires FirstConflict(Stack(t, dec.Name()), dec, level).Some?
    ensures Added(t, dec, level) == t
    ensures FrontDec(Added(t, dec, level), dec.Name()) == FrontDec(t, dec.Name())
    ensures |AddReports(t, dec, level)| == if Exempt(FirstConflict(Stack(t, dec.Name()), dec, level).value, dec) then 0 else 1
  {
  }

  /** A clash needs the same name, the same level and the same category: a
      variable and a function of one name at one level coexist, and so do two
      declarations of one name at different levels. */
  lemma ClashOnlySameLevelAndCategory(t: Table, dec: Dec, level: int)
    requires WellFormed(t)
    ensures FirstConflict(Stack(t, dec.Name()), dec, level).Some? <==>
            exists i :: 0 <= i < |Stack(t, dec.Name())| &&
              Stack(t, dec.Name())[i].level == level && SameCategory(Stack(t, dec.Name())[i].def, dec)
  {
    var s := Stack(t, dec.Name());
    assert forall i :: 0 <= i < |s| ==> s[i].name == dec.Name();
  }

  lemma VariableAndFunctionCoexist(t: Table, f: Dec, x: VarDec, level: int)
    requires WellFormed(t)
    requires f.FunctionDec? && f.func == x.name
    requires FirstConflict(Stack(t, f.Name()), f, level).None?
    ensures FirstConflict(Stack(Added(t, f, level), x.name), VarDecl(x), level).None? <==>
            FirstConflict(Stack(t, x.name), VarDecl(x), level).None?
  {
    var s := Stack(t, x.name);
    var s' := Stack(Added(t, f, level), x.name);
    assert s' == [NodeType(f.Name(), f, level)] + s;
    assert !Clashes(s'[0], VarDecl(x), level);
    assert forall i :: 1 <= i < |s'| ==> s'[i] == s[i - 1];
    if FirstConflict(s', VarDecl(x), level).Some? {
      var i :| 0 <= i < |s'| && Clashes(s'[i], VarDecl(x), level);
      assert Clashes(s[i - 1], VarDecl(x), level);
    }
  }

  /** A prototype followed by its definition at the same level: no change, no
      error. The prototype is taken as the front entry here; the general case,
      where the clash found is any prototype, is AddWithClashKeepsFirst with
      Exempt. */
  lemma PrototypeThenDefinition(t: Table, dec: Dec, level: int)
    requires dec.FunctionDec? && !dec.body.NilExp?
    requires Stack(t, dec.Name()) != [] && Stack(t, dec.Name())[0].level == level
    requires Stack(t, dec.Name())[0].def.IsPrototype() && Stack(t, dec.Name())[0].name == dec.Name()
    ensures Added(t, dec, level) == t
    ensures AddReports(t, dec, level) == []
  {
  }

  /** removeSymbol: with a non-empty stack it pops exactly the front entry and
      answers true; otherwise it changes nothing and answers false. The key
      is never deleted, so isMainDeclared stays true once "main" was
      registered, whatever is added or removed later. */
  lemma RemovePopsFront(t: Table, n: string, other: string)
    ensures (n in t && |t[n]| > 0) ==> Stack(Removed(t, n), n) == Stack(t, n)[1..]
    ensures !(n in t && |t[n]| > 0) ==> Removed(t, n) == t
    ensures other != n ==> Stack(Removed(t, n), other) == Stack(t, other)
    ensures Removed(t, n).Keys == t.Keys
  {
  }

  /** addSymbol always leaves a key for the name (a new one, or the one
      already there) and creates no other; it reports at most once, with
      the declaration's position. */
  lemma AddedKeysAndReports(t: Table, dec: Dec, level: int)
    ensures Added(t, dec, level).Keys == t.Keys + {dec.Name()}
    ensures |AddReports(t, dec, level)| <= 1
    ensures forall i :: 0 <= i < |AddReports(t, dec, level)| ==> AddReports(t, dec, level)[i].At?
  {
  }

  lemma MainStaysDeclared(t: Table, dec: Dec, level: int, n: string)
    ensures IsMainDeclared(t) ==> IsMainDeclared(Added(t, dec, level)) && IsMainDeclared(Removed(t, n))
    ensures dec.Name() == "main" ==> IsMainDeclared(Added(t, dec, level))
    ensures t.Keys <= Added(t, dec, level).Keys && Removed(t, n).Keys == t.Keys
  {
  }

  /** isDeclared holds exactly when the name's stack has an entry at the
      lookup level or an outer one. */
  lemma IsDeclaredMeansVisibleEntry(t: Table, n: string, level: int)
    requires WellFormed(t)
    ensures IsDeclared(t, n, level) <==> exists i :: 0 <= i < |Stack(t, n)| && Stack(t, n)[i].level <= level
  {
    if n in t {
      var s := t[n];
      assert Stack(t, n) == s;
      assert forall i :: 0 <= i < |s| ==> s[i].name == n;
      assert Visible(s, n, level) <==> exists i :: 0 <= i < |s| && s[i].name == n && s[i].level <= level;
    }
  }

  lemma AddedWellFormed(t: Table, dec: Dec, level: int, n: string)
    requires WellFormed(t)
    ensures WellFormed(Added(t, dec, level)) && WellFormed(Removed(t, n))
  {
    var t': Table := Added(t, dec, level);
    forall m: string, i: int | m in t' && 0 <= i < |t'[m]| ensures t'[m][i].name == m {
      if m == dec.Name() && t' != t {
        if i > 0 {
          assert t'[m][i] == Stack(t, m)[i - 1];
        }
      }
    }
    var r: Table := Removed(t, n);
    forall m: string, i: int | m in r && 0 <= i < |r[m]| ensures r[m][i].name == m {
      if m == n && n in t && |t[n]| > 0 {
        assert r[m][i] == t[m][i + 1];
      }
    }
  }

  // ---- Scope discipline ---------------------------------------------------

  /** The names of a declaration list, in list order. */
  function Names(ds: seq<Dec>): (ns: seq<string>)
    ensures |ns| == |ds|
    ensures forall i :: 0 <= i < |ds| ==> ns[i] == ds[i].Name()
  {
    seq(|ds|, i requires 0 <= i < |ds| => ds[i].Name())
  }

  /** The table after the variables of a list are pushed in list order. */
  function PushAll(t: Table, vs: seq<VarDec>, level: int): Table
    decreases |vs|
  {
    if vs == [] then t else Pushed(PushAll(t, vs[..|vs| - 1], level), VarDecl(vs[|vs| - 1]), level)
  }

  /** The table after removeSymbol is applied to each name in list order. */
  function RemoveAll(t: Table, ns: seq<string>): Table
    decreases |ns|
  {
    if ns == [] then t else Removed(RemoveAll(t, ns[..|ns| - 1]), ns[|ns| - 1])
  }

  /** How many times a name occurs in a list. */
  function Count(ns: seq<string>, n: string): nat
    decreases |ns|
  {
    if ns == [] then 0 else Count(ns[..|ns| - 1], n) + (if ns[|ns| - 1] == n then 1 else 0)
  }

  function Drop<T>(s: seq<T>, k: nat): seq<T> {
    if k >= |s| then [] else s[k..]
  }

  /** Two tables that agree on every name's stack (they may differ in keys
      whose stacks are empty). */
  ghost predicate SameStacks(t1: Table, t2: Table) {
    forall n :: Stack(t1, n) == Stack(t2, n)
  }

  /** Pushing a list puts one new entry per occurrence of a name on top of
      that name's old stack. */
  lemma {:induction false} StackAfterPushAll(t: Table, vs: seq<VarDec>, level: int, n: string)
    ensures |Stack(PushAll(t, vs, level), n)| == |Stack(t, n)| + Count(Names(Lift(vs)), n)
    ensures Stack(PushAll(t, vs, level), n)[Count(Names(Lift(vs)), n)..] == Stack(t, n)
    decreases |vs|
  {
    if vs != [] {
      var init := vs[..|vs| - 1];
      StackAfterPushAll(t, init, level, n);
      PushAllStackStep(t, vs, level, n);
    }
  }

  /** One push of a list: the last variable's name gains an entry on top,
      every other name keeps its stack. */
  lemma PushAllStackStep(t: Table, vs: seq<VarDec>, level: int, n: string)
    requires vs != []
    ensures var init := vs[..|vs| - 1];
      Count(Names(Lift(vs)), n) == Count(Names(Lift(init)), n) + (if vs[|vs| - 1].name == n then 1 else 0) &&
      Stack(PushAll(t, vs, level), n) ==
        (if vs[|vs| - 1].name == n then [NodeType(n, VarDecl(vs[|vs| - 1]), level)] else []) + Stack(PushAll(t, init, level), n)
  {
    assert Names(Lift(vs))[..|vs| - 1] == Names(Lift(vs[..|vs| - 1]));
    PushAllTop(t, vs, level, n);
  }

  lemma PushAllTop(t: Table, vs: seq<VarDec>, level: int, n: string)
    requires vs != []
    ensures Stack(PushAll(t, vs, level), n) ==
      (if vs[|vs| - 1].name == n then [NodeType(n, VarDecl(vs[|vs| - 1]), level)] else []) + Stack(PushAll(t, vs[..|vs| - 1], level), n)
  {
  }

  /** Removing a list pops one entry per occurrence of a name, until the
      name's stack is empty. */
  lemma {:induction false} StackAfterRemoveAll(t: Table, ns: seq<string>, n: string)
    ensures Stack(RemoveAll(t, ns), n) == Drop(Stack(t, n), Count(ns, n))
    decreases |ns|
  {
    if ns != [] {
      StackAfterRemoveAll(t, ns[..|ns| - 1], n);
    }
  }

  /** Closing a scope whose variables were all pushed (none was a
      redeclaration and none was rejected) gives every stack back as it was
      before the scope opened; and closing scopes treats tables with the same
      stacks alike. */
  lemma ScopeRestores(t: Table, t': Table, vs: seq<VarDec>, level: int)
    requires SameStacks(t', PushAll(t, vs, level))
    ensures SameStacks(RemoveAll(t', Names(Lift(vs))), t)
  {
    forall n ensures Stack(RemoveAll(t', Names(Lift(vs))), n) == Stack(t, n) {
      StackAfterPushAll(t, vs, level, n);
      StackAfterRemoveAll(t', Names(Lift(vs)), n);
      assert Stack(t', n) == Stack(PushAll(t, vs, level), n);
      DropSuffix(Stack(t', n), Count(Names(Lift(vs)), n), Stack(t, n));
    }
  }

  lemma DropSuffix<T>(s: seq<T>, c: nat, r: seq<T>)
    requires c <= |s| && s[c..] == r
    ensures Drop(s, c) == r
  {
  }

  lemma PushedSameStacks(t1: Table, t2: Table, dec: Dec, level: int)
    requires SameStacks(t1, t2)
    ensures SameStacks(Pushed(t1, dec, level), Pushed(t2, dec, level))
  {
    forall n ensures Stack(Pushed(t1, dec, level), n) == Stack(Pushed(t2, dec, level), n) {
      assert Stack(t1, n) == Stack(t2, n);
    }
  }

  // ---- Registration and the close of a scope ----------------------------

  /** A declaration that visit(DecList)/visit(VarDecList) passes to
      addSymbol: every function, and every variable that is not void. */
  predicate Registers(d: Dec) {
    d.FunctionDec? || d.v.typ.typ != VOID
  }

  /** The table after each declaration of a list is registered in list
      order: a void variable is skipped, anything else goes through addSymbol. */
  function RegisterAll(t: Table, ds: seq<Dec>, level: int): Table
    decreases |ds|
  {
    if ds == [] then t
    else
      var t0 := RegisterAll(t, ds[..|ds| - 1], level);
      if Registers(ds[|ds| - 1]) then Added(t0, ds[|ds| - 1], level) else t0
  }

  /** The reports of that registration: the void-variable report, or what
      addSymbol reports, for each declaration in turn. */
  function RegisterReports(t: Table, ds: seq<Dec>, level: int): seq<Report>
    decreases |ds|
  {
    if ds == [] then []
    else
      var init := ds[..|ds| - 1];
      var d := ds[|ds| - 1];
      RegisterReports(t, init, level) +
      (if Registers(d) then AddReports(RegisterAll(t, init, level), d, level)
       else [At(d.Row(), d.Col(), VoidVariableMsg)])
  }

  /** The names of the entries that registration actually pushed: a
      declaration that is registered and clashes with nothing. */
  function PushedNames(t: Table, ds: seq<Dec>, level: int): seq<string>
    decreases |ds|
  {
    if ds == [] then []
    else
      var init := ds[..|ds| - 1];
      var d := ds[|ds| - 1];
      PushedNames(t, init, level) +
      (if Registers(d) && FirstConflict(Stack(RegisterAll(t, init, level), d.Name()), d, level).None?
       then [d.Name()] else [])
  }

  lemma CountSnoc(ns: seq<string>, x: string, n: string)
    ensures Count(ns + [x], n) == Count(ns, n) + (if x == n then 1 else 0)
  {
    assert (ns + [x])[..|ns|] == ns;
  }

  /** Registration puts exactly one entry per pushed occurrence of a name on
      top of that name's old stack, which stays intact below. */
  lemma {:induction false} StackAfterRegisterAll(t: Table, ds: seq<Dec>, level: int, n: string)
    ensures |Stack(RegisterAll(t, ds, level), n)| == |Stack(t, n)| + Count(PushedNames(t, ds, level), n)
    ensures Stack(RegisterAll(t, ds, level), n)[Count(PushedNames(t, ds, level), n)..] == Stack(t, n)
    decreases |ds|
  {
    if ds != [] {
      var init := ds[..|ds| - 1];
      var d := ds[|ds| - 1];
      StackAfterRegisterAll(t, init, level, n);
      var t0 := RegisterAll(t, init, level);
      var p0 := PushedNames(t, init, level);
      var pushed := Registers(d) && FirstConflict(Stack(t0, d.Name()), d, level).None?;
      if pushed {
        CountSnoc(p0, d.Name(), n);
        if d.Name() == n {
          var s0 := Stack(t0, n);
          assert Stack(RegisterAll(t, ds, level), n) == [NodeType(n, d, level)] + s0;
          assert ([NodeType(n, d, level)] + s0)[Count(p0, n) + 1..] == s0[Count(p0, n)..];
        } else {
          assert Stack(RegisterAll(t, ds, level), n) == Stack(t0, n);
        }
      } else {
        assert PushedNames(t, ds, level) == p0 + [] == p0;
        assert Stack(RegisterAll(t, ds, level), n) == Stack(t0, n);
      }
    }
  }

  /** A close that pops once per entry the scope actually pushed gives every
      stack back as it was before the scope opened, whatever was reported
      while registering. */
  lemma CorrectedCloseRestores(t: Table, ds: seq<Dec>, level: int)
    ensures SameStacks(RemoveAll(RegisterAll(t, ds, level), PushedNames(t, ds, level)), t)
  {
    forall n ensures Stack(RemoveAll(RegisterAll(t, ds, level), PushedNames(t, ds, level)), n) == Stack(t, n) {
      StackAfterRegisterAll(t, ds, level, n);
      StackAfterRemoveAll(RegisterAll(t, ds, level), PushedNames(t, ds, level), n);
      DropSuffix(Stack(RegisterAll(t, ds, level), n), Count(PushedNames(t, ds, level), n), Stack(t, n));
    }
  }

  /** The close the source performs pops once per declaration of the list.
      A block holding `int x; int x;` inside a scope that already has `x`
      reports the second declaration and does not push it, yet pops `x`
      twice: the enclosing declaration is gone and `x` is no longer
      declared at the block's level, while the corrected close keeps it. */
  lemma RedeclarationInBlockPopsEnclosing(outer: Dec, x1: VarDec, x2: VarDec)
    requires outer.Name() == "x" && x1.name == "x" && x2.name == "x"
    requires x1.typ.typ != VOID && x2.typ.typ != VOID
    ensures var t0 := map["x" := [NodeType("x", outer, 2)]];
            var ds := Lift([x1, x2]);
            var t2 := RegisterAll(t0, ds, 3);
            |RegisterReports(t0, ds, 3)| == 1 &&
            Stack(RemoveAll(t2, Names(ds)), "x") == [] &&
            !IsDeclared(RemoveAll(t2, Names(ds)), "x", 2) &&
            Stack(RemoveAll(t2, PushedNames(t0, ds, 3)), "x") == Stack(t0, "x")
  {
    var t0 := map["x" := [NodeType("x", outer, 2)]];
    var ds := Lift([x1, x2]);
    assert ds == [VarDecl(x1), VarDecl(x2)];
    assert ds[..1] == [VarDecl(x1)] && ds[..1][..0] == [];
    assert RegisterAll(t0, [], 3) == t0;
    var t1 := RegisterAll(t0, ds[..1], 3);
    assert t1 == Added(t0, VarDecl(x1), 3);
    assert t1["x"] == [NodeType("x", VarDecl(x1), 3), NodeType("x", outer, 2)];
    assert Clashes(t1["x"][0], VarDecl(x2), 3);
    assert AddReports(t0, VarDecl(x1), 3) == [];
    assert RegisterReports(t0, ds[..1], 3) == [];
    assert |AddReports(t1, VarDecl(x2), 3)| == 1;
    assert RegisterAll(t0, ds, 3) == t1;
    assert Names(ds) == ["x", "x"] && ["x", "x"][..1] == ["x"];
    CorrectedCloseRestores(t0, ds, 3);
  }

  /** The same with a void block variable: it is reported and never
      registered, yet the close pops the enclosing `x`. */
  lemma VoidBlockVariablePopsEnclosing(outer: Dec, x: VarDec)
    requires outer.Name() == "x" && x.name == "x" && x.typ.typ == VOID
    ensures var t0 := map["x" := [NodeType("x", outer, 2)]];
            var ds := Lift([x]);
            RegisterReports(t0, ds, 3) == [At(x.row, x.col, VoidVariableMsg)] &&
            RegisterAll(t0, ds, 3) == t0 &&
            Stack(RemoveAll(RegisterAll(t0, ds, 3), Names(ds)), "x") == [] &&
            PushedNames(t0, ds, 3) == []
  {
    var ds := Lift([x]);
    assert ds == [VarDecl(x)] && ds[..0] == [];
    assert Names(ds) == ["x"] && ["x"][..0] == [];
  }

  // ---- The program's scope ------------------------------------------------

  /** The table after addSymbol is applied to each declaration in list order. */
  function AddedAll(t: Table, ds: seq<Dec>, level: int): Table
    decreases |ds|
  {
    if ds == [] then t else Added(AddedAll(t, ds[..|ds| - 1], level), ds[|ds| - 1], level)
  }

  lemma AddedSameStacks(t1: Table, t2: Table, dec: Dec, level: int)
    requires SameStacks(t1, t2)
    ensures SameStacks(Added(t1, dec, level), Added(t2, dec, level))
  {
    assert Stack(t1, dec.Name()) == Stack(t2, dec.Name());
    PushedSameStacks(t1, t2, dec, level);
  }

  lemma RemoveAllSameStacks(t1: Table, t2: Table, ns: seq<string>)
    requires SameStacks(t1, t2)
    ensures SameStacks(RemoveAll(t1, ns), RemoveAll(t2, ns))
  {
    forall n ensures Stack(RemoveAll(t1, ns), n) == Stack(RemoveAll(t2, ns), n) {
      StackAfterRemoveAll(t1, ns, n);
      StackAfterRemoveAll(t2, ns, n);
      assert Stack(t1, n) == Stack(t2, n);
    }
  }

  /** One addSymbol leaves a name's stack as it was or with one entry more. */
  lemma AddedStack(t: Table, dec: Dec, level: int, n: string)
    ensures Stack(Added(t, dec, level), n) == Stack(t, n) ||
            (dec.Name() == n && Stack(Added(t, dec, level), n) == [NodeType(n, dec, level)] + Stack(t, n))
  {
  }

  lemma SuffixOfCons<T>(x: T, s: seq<T>, m: nat)
    requires m <= |s|
    ensures ([x] + s)[|[x] + s| - m..] == s[|s| - m..]
  {
  }

  /** Adding a list pushes at most one entry per occurrence of a name, on top
      of that name's old stack. */
  lemma {:induction false} StackAfterAddAll(t: Table, ds: seq<Dec>, level: int, n: string)
    ensures |Stack(t, n)| <= |Stack(AddedAll(t, ds, level), n)| <= |Stack(t, n)| + Count(Names(ds), n)
    ensures Stack(AddedAll(t, ds, level), n)[|Stack(AddedAll(t, ds, level), n)| - |Stack(t, n)|..] == Stack(t, n)
    decreases |ds|
  {
    if ds != [] {
      var init := ds[..|ds| - 1];
      var d := ds[|ds| - 1];
      var sb := Stack(AddedAll(t, init, level), n);
      var sa := Stack(AddedAll(t, ds, level), n);
      StackAfterAddAll(t, init, level, n);
      AddAllStackStep(t, ds, level, n);
      GrowBySuffix(Stack(t, n), sb, sa, NodeType(n, d, level), Count(Names(init), n), d.Name() == n);
      assert |Stack(t, n)| <= |sa| <= |Stack(t, n)| + Count(Names(ds), n);
    }
  }

  /** A sequence that ends with `s0` still does after it gains at most one
      element in front. */
  lemma GrowBySuffix<T>(s0: seq<T>, sb: seq<T>, sa: seq<T>, x: T, c: nat, grew: bool)
    requires |s0| <= |sb| <= |s0| + c && sb[|sb| - |s0|..] == s0
    requires sa == sb || (grew && sa == [x] + sb)
    ensures |s0| <= |sa| <= |s0| + c + (if grew then 1 else 0) && sa[|sa| - |s0|..] == s0
  {
    if sa != sb {
      SuffixOfCons(x, sb, |s0|);
    }
  }

  /** One addSymbol of a list: the last declaration's name may gain an
      entry on top, every other name keeps its stack. */
  lemma AddAllStackStep(t: Table, ds: seq<Dec>, level: int, n: string)
    requires ds != []
    ensures var init := ds[..|ds| - 1]; var d := ds[|ds| - 1];
      Count(Names(ds), n) == Count(Names(init), n) + (if d.Name() == n then 1 else 0) &&
      (Stack(AddedAll(t, ds, level), n) == Stack(AddedAll(t, init, level), n) ||
       (d.Name() == n && Stack(AddedAll(t, ds, level), n) == [NodeType(n, d, level)] + Stack(AddedAll(t, init, level), n)))
  {
    CountStep(ds, n);
    AddedStack(AddedAll(t, ds[..|ds| - 1], level), ds[|ds| - 1], level, n);
  }

  lemma CountStep(ds: seq<Dec>, n: string)
    requires ds != []
    ensures Count(Names(ds), n) == Count(Names(ds[..|ds| - 1]), n) + (if ds[|ds| - 1].Name() == n then 1 else 0)
  {
    assert Names(ds)[..|ds| - 1] == Names(ds[..|ds| - 1]);
  }

  /** Closing the program's scope, which pops one entry per declaration, gives
      back the stack of every name the program does not declare and of every
      name that had no entry before the program: the declarations of such a
      name are at most as many as its pops. A name with an entry before the
      program and declared in it may lose entries it had before. */
  lemma ProgramScopeRestores(t: Table, ds: seq<Dec>, level: int, n: string)
    requires Stack(t, n) == [] || Count(Names(ds), n) == 0
    ensures Stack(RemoveAll(AddedAll(t, ds, level), Names(ds)), n) == Stack(t, n)
  {
    StackAfterAddAll(t, ds, level, n);
    StackAfterRemoveAll(AddedAll(t, ds, level), Names(ds), n);
  }

  /** A parameter list is pushed at the level its function's top-level block
      declares its locals at, so a local named like a parameter clashes with
      it and, by AddWithClashKeepsFirst, is reported and not pushed. */
  lemma {:induction false} LocalClashesWithParameter(t: Table, ps: seq<VarDec>, level: int, k: int, v: VarDec)
    requires 0 <= k < |ps| && ps[k].name == v.name
    ensures FirstConflict(Stack(PushAll(t, ps, level), v.name), VarDecl(v), level).Some?
  {
    var s := Stack(PushAll(t, ps, level), v.name);
    ParamEntryInStack(t, ps, level, k);
    var i :| 0 <= i < |s| && s[i] == NodeType(v.name, VarDecl(ps[k]), level);
    assert Clashes(s[i], VarDecl(v), level);
  }

  /** Every pushed parameter has its entry in its name's stack. */
  lemma {:induction false} ParamEntryInStack(t: Table, ps: seq<VarDec>, level: int, k: int)
    requires 0 <= k < |ps|
    ensures NodeType(ps[k].name, VarDecl(ps[k]), level) in Stack(PushAll(t, ps, level), ps[k].name)
    decreases |ps|
  {
    var last := |ps| - 1;
    var n := ps[k].name;
    var x := NodeType(n, VarDecl(ps[k]), level);
    var s := Stack(PushAll(t, ps, level), n);
    var s0 := Stack(PushAll(t, ps[..last], level), n);
    PushAllTop(t, ps, level, n);
    if k == last {
      assert s == [x] + s0;
      assert s[0] == x;
    } else {
      assert ps[..last][k] == ps[k];
      ParamEntryInStack(t, ps[..last], level, k);
      var j :| 0 <= j < |s0| && s0[j] == x;
      if ps[last].name == n {
        assert s == [NodeType(n, VarDecl(ps[last]), level)] + s0;
        assert s[j + 1] == x;
      } else {
        assert s == s0;
        assert s[j] == x;
      }
    }
  }
}
