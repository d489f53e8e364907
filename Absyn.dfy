/** The syntax tree the two back-end passes walk (the `absyn` package).

    The tree's shape is immutable; the per-node annotations that the Java
    classes carry as mutable fields (`dtype`, `offset`, `nestLevel`,
    `funaddr`) are not part of these values: the analyzer returns `dtype`
    from its visits and the code generator keeps the others in side maps.
    Java's linked lists (`DecList`, `VarDecList`, `ExpList`, ended by a null
    node or a null head) are sequences of their heads. */
module Absyn {

  datatype Option<T> = None | Some(value: T)

  // Type codes of NameTy.
  const BOOL: int := 0
  const INT: int := 1
  const VOID: int := 2

  // Operator codes of OpExp.
  const LT: int := 0
  const GT: int := 1
  const LTE: int := 2
  const GTE: int := 3
  const EQUAL: int := 4
  const NEQUAL: int := 5
  const OR: int := 6
  const AND: int := 7
  const BNOT: int := 8
  const ADD: int := 9
  const SUBT: int := 10
  const MULT: int := 11
  const DIV: int := 12
  const UMINUS: int := 13

  /** Size recorded for an array parameter passed by reference. */
  const UNKNOWN_SIZE: int := -1

  /** Value every FunctionDec's `funaddr` holds until code generation sets it. */
  const INITIAL_FUNADDR: int := 1

  /** A type name; `typ` is the Java field `type`, one of the codes above
      when the parser built it. */
  datatype NameTy = NameTy(row: int, col: int, typ: int)

  /** NameTy.getTypeString. */
  function GetTypeString(n: NameTy): (s: string)
    ensures n.typ == BOOL <==> s == "BOOL"
    ensures n.typ == INT <==> s == "INT"
    ensures n.typ == VOID <==> s == "VOID"
    ensures s == "UNKNOWN" <==> !(n.typ in {BOOL, INT, VOID})
  {
    if n.typ == BOOL then "BOOL"
    else if n.typ == INT then "INT"
    else if n.typ == VOID then "VOID"
    else "UNKNOWN"
  }

  lemma TypeCodesDistinct()
    ensures BOOL != INT && INT != VOID && BOOL != VOID
  {
  }

  /** The NameTy constructor stores its code unchanged, so a type name built
      from one of the three codes never prints as UNKNOWN, and two such names
      print alike exactly when their codes agree. */
  lemma TypeStringOfValidCode(row: int, col: int, code: int, other: NameTy)
    requires code in {BOOL, INT, VOID}
    ensures NameTy(row, col, code).typ == code
    ensures GetTypeString(NameTy(row, col, code)) != "UNKNOWN"
    ensures GetTypeString(other) == GetTypeString(NameTy(row, col, code)) <==> other.typ == code
  {
  }

  /** A variable declaration (VarDec and its subclasses). */
  datatype VarDec =
    | SimpleDec(row: int, col: int, typ: NameTy, name: string)
    | ArrayDec(row: int, col: int, typ: NameTy, name: string, size: int)

  /** A declaration: a variable or a function. A function whose body is a
      NilExp is a prototype. */
  datatype Dec =
    | VarDecl(v: VarDec)
    | FunctionDec(row: int, col: int, result: NameTy, func: string, params: seq<VarDec>, body: Exp)
  {
    /** Dec.getName. */
    function Name(): string {
      if VarDecl? then v.name else func
    }

    /** Dec.getType: the declared type of a variable, the result type of a function. */
    function DecType(): NameTy {
      if VarDecl? then v.typ else result
    }

    predicate IsPrototype() {
      FunctionDec? && body.NilExp?
    }

    function Row(): int {
      if VarDecl? then v.row else row
    }

    function Col(): int {
      if VarDecl? then v.col else col
    }
  }

  datatype Var =
    | SimpleVar(row: int, col: int, name: string)
    | IndexVar(row: int, col: int, name: string, index: Exp)

  datatype Exp =
    | NilExp(row: int, col: int)
    | IntExp(row: int, col: int, value: int)
    | BoolExp(row: int, col: int, truth: bool)
    | VarExp(row: int, col: int, variable: Var)
    | CallExp(row: int, col: int, func: string, args: seq<Exp>)
    | OpExp(row: int, col: int, left: Exp, op: int, right: Exp)
    | AssignExp(row: int, col: int, lhs: Exp, rhs: Exp)
    | IfExp(row: int, col: int, test: Exp, thenpart: Exp, elsepart: Exp)
    | WhileExp(row: int, col: int, test: Exp, body: Exp)
    | ReturnExp(row: int, col: int, exp: Exp)
    | CompoundExp(row: int, col: int, decs: seq<VarDec>, exps: seq<Exp>)

  /** A VarDecList seen as a list of declarations. */
  function Lift(vs: seq<VarDec>): (ds: seq<Dec>)
    ensures |ds| == |vs|
    ensures forall i :: 0 <= i < |vs| ==> ds[i] == VarDecl(vs[i])
  {
    seq(|vs|, i requires 0 <= i < |vs| => VarDecl(vs[i]))
  }
}
