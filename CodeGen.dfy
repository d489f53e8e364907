/** The code generator (CodeGenerator.java): emission of TM instructions
    through two cursors, backpatched jumps, the storage allocator, and the
    fixed prelude, I/O routines and finale.

    The emitted text is a sequence of lines: comments, and instructions
    tagged with the location they are written for. Backpatching writes a
    location out of order, so the program an assembler loads is the last
    instruction written for each location; `Image` computes it. */
module CodeGen {
  import opened Absyn

  // Registers.
  const AC: int := 0
  const AC1: int := 1
  const FP: int := 5
  const GP: int := 6
  const PC: int := 7

  const MAIN_FUNCTION_NAME: string := "main"

  /** The opcodes this generator emits; the rest of OpCode.java is not part
      of this model. */
  datatype OpCode = HALT | IN | OUT | LD | LDA | LDC | ST

  datatype OpType = RO | RM

  datatype Line =
    | Comment(text: string)
    | RegOnly(loc: int, op: OpCode, r: int, s: int, t: int, note: string)
    | RegMem(loc: int, op: OpCode, r: int, d: int, base: int, note: string)

  /** The instruction emit writes at `loc`. An absolute register-memory
      instruction (emitRMAbs) stores its target as a displacement from the
      following location, based on the PC. */
  function Encode(loc: int, code: OpCode, typ: OpType, r: int, s: int, t: int, c: string, isAbsolute: bool): (l: Line)
    ensures !l.Comment? && l.loc == loc && l.op == code && l.r == r && l.note == c
    ensures l.RegOnly? <==> typ == RO
  {
    if typ == RO then RegOnly(loc, code, r, s, t, c)
    else RegMem(loc, code, r, if isAbsolute then s - (loc + 1) else s, if isAbsolute then PC else t, c)
  }

  /** The address a PC-based register-memory instruction refers to: the PC
      has already moved past the instruction when it is executed. */
  function PcTarget(l: Line): int
    requires l.RegMem?
  {
    l.loc + 1 + l.d
  }

  /** An absolute instruction at any location resolves to its target; a
      relative one keeps its displacement and base as given. */
  lemma AbsoluteAddressing(loc: int, code: OpCode, r: int, a: int, s: int, t: int, c: string)
    ensures Encode(loc, code, RM, r, a, 0, c, true).RegMem?
    ensures Encode(loc, code, RM, r, a, 0, c, true).base == PC
    ensures PcTarget(Encode(loc, code, RM, r, a, 0, c, true)) == a
    ensures Encode(loc, code, RM, r, s, t, c, false) == RegMem(loc, code, r, s, t, c)
  {
  }

  /** The loaded program: for each location, the last instruction written for it. */
  function Image(out: seq<Line>): (m: map<int, Line>)
    ensures forall p :: p in m ==> !m[p].Comment? && m[p].loc == p
    decreases |out|
  {
    if out == [] then map[]
    else
      var m := Image(out[..|out| - 1]);
      var last := out[|out| - 1];
      if last.Comment? then m else m[last.loc := last]
  }

  /** A location is loaded exactly when some instruction was written for it. */
  lemma {:induction false} ImageDomain(out: seq<Line>, p: int)
    ensures p in Image(out) <==> exists i :: 0 <= i < |out| && !out[i].Comment? && out[i].loc == p
    decreases |out|
  {
    if out != [] {
      var init := out[..|out| - 1];
      ImageDomain(init, p);
      if p in Image(init) {
        var i :| 0 <= i < |init| && !init[i].Comment? && init[i].loc == p;
        assert out[i] == init[i];
      }
      if exists i :: 0 <= i < |out| && !out[i].Comment? && out[i].loc == p {
        var i :| 0 <= i < |out| && !out[i].Comment? && out[i].loc == p;
        if i < |init| {
          assert init[i] == out[i];
        }
      }
    }
  }

  lemma ImageAppendOne(out: seq<Line>, l: Line)
    ensures Image(out + [l]) == if l.Comment? then Image(out) else Image(out)[l.loc := l]
  {
    assert (out + [l])[..|out + [l]| - 1] == out;
  }

  /** `after` is `before` followed by comments only. */
  ghost predicate CommentsOnly(before: seq<Line>, after: seq<Line>) {
    |before| <= |after| && after[..|before|] == before &&
    forall i :: |before| <= i < |after| ==> after[i].Comment?
  }

  lemma CommentsOnlyTrans(a: seq<Line>, b: seq<Line>, c: seq<Line>)
    requires CommentsOnly(a, b) && CommentsOnly(b, c)
    ensures CommentsOnly(a, c)
  {
    assert c[..|a|] == c[..|b|][..|a|];
  }

  /** Comments do not change the loaded program. */
  lemma {:induction false} ImageIgnoresComments(before: seq<Line>, after: seq<Line>)
    requires CommentsOnly(before, after)
    ensures Image(after) == Image(before)
    decreases |after|
  {
    if |after| > |before| {
      var init := after[..|after| - 1];
      assert init[..|before|] == before;
      ImageIgnoresComments(before, init);
    } else {
      assert after == before;
    }
  }

  /** The cursor discipline of emission. Every instruction written so far
      lies below the high-water mark; the slots reserved by unfinished
      backpatches are below the cursor, in increasing order, and no
      instruction has been written for them yet. */
  ghost predicate WellPlaced(out: seq<Line>, emitLoc: int, highEmitLoc: int, pending: seq<int>) {
    (forall i :: 0 <= i < |out| && !out[i].Comment? ==> out[i].loc < highEmitLoc) &&
    (forall j :: 0 <= j < |pending| ==> pending[j] < emitLoc) &&
    (forall j, k :: 0 <= j < k < |pending| ==> pending[j] < pending[k]) &&
    (forall i, j :: 0 <= i < |out| && 0 <= j < |pending| && !out[i].Comment? ==> out[i].loc != pending[j])
  }

  lemma CommentsKeepWellPlaced(before: seq<Line>, after: seq<Line>, e: int, h: int, pending: seq<int>)
    requires CommentsOnly(before, after) && WellPlaced(before, e, h, pending)
    ensures WellPlaced(after, e, h, pending)
  {
    assert forall i :: 0 <= i < |before| ==> after[i] == before[i];
  }

  /** Every loaded location lies below the high-water mark. */
  lemma LoadedBelowHigh(out: seq<Line>, e: int, h: int, pending: seq<int>, p: int)
    requires WellPlaced(out, e, h, pending) && p in Image(out)
    ensures p < h
  {
    ImageDomain(out, p);
  }

  /** Every location loaded from `before` still holds the same instruction in `after`. */
  ghost predicate Keeps(before: seq<Line>, after: seq<Line>) {
    forall p :: p in Image(before) ==> p in Image(after) && Image(after)[p] == Image(before)[p]
  }

  lemma SuffixOf(a: seq<Line>, b: seq<Line>)
    ensures (a + b)[|a|..] == b
  {
  }

  lemma KeepsTrans(a: seq<Line>, b: seq<Line>, c: seq<Line>)
    requires Keeps(a, b) && Keeps(b, c)
    ensures Keeps(a, c)
  {
  }

  /** The loaded program holds a routine entry, the return-address store, at `a`. */
  ghost predicate StartsRoutine(out: seq<Line>, a: int) {
    a in Image(out) && Image(out)[a] == StoreReturn(a)
  }

  /** Every function whose address was assigned starts there; so does
      main's entry once set. */
  ghost predicate Placed(out: seq<Line>, funaddr: map<Dec, int>, mainEntry: int) {
    (forall d :: d in funaddr ==> StartsRoutine(out, funaddr[d])) &&
    (mainEntry == 0 || StartsRoutine(out, mainEntry))
  }

  lemma PlacedKept(before: seq<Line>, after: seq<Line>, funaddr: map<Dec, int>, mainEntry: int)
    requires Placed(before, funaddr, mainEntry) && Keeps(before, after)
    ensures Placed(after, funaddr, mainEntry)
  {
  }

  lemma PlacedAdd(out: seq<Line>, funaddr: map<Dec, int>, mainEntry: int, d: Dec, a: int, isMain: bool)
    requires Placed(out, funaddr, mainEntry) && StartsRoutine(out, a)
    ensures Placed(out, funaddr[d := a], if isMain then a else mainEntry)
  {
  }

  /** A function's three instructions, written above everything loaded,
      keep what was loaded and start a routine after the slot. */
  lemma FunctionAbove(before: seq<Line>, after: seq<Line>, s: int, jump: Line)
    requires forall p :: p in Image(before) ==> p < s
    requires Image(after) == Image(before)[s + 1 := StoreReturn(s + 1)][s + 2 := ReturnToCaller(s + 2)][s := jump]
    ensures Keeps(before, after) && StartsRoutine(after, s + 1)
  {
  }

  /** The instruction every routine starts with. */
  function StoreReturn(loc: int): Line {
    RegMem(loc, ST, AC, -1, FP, "Store return address")
  }

  function ReturnToCaller(loc: int): Line {
    RegMem(loc, LD, PC, -1, FP, "Return back to caller")
  }

  /** The jump backpatch writes into slot `s` once the code after it ends at `e`. */
  function JumpOver(s: int, e: int, msg: string): Line {
    Encode(s, LDA, RM, PC, e, 0, msg, true)
  }

  /** The words a scalar or array declaration occupies in the globals. */
  function VarSize(v: VarDec): int {
    if v.ArrayDec? then v.size else 1
  }

  function GlobalSize(vs: seq<VarDec>): int
    decreases |vs|
  {
    if vs == [] then 0 else GlobalSize(vs[..|vs| - 1]) + VarSize(vs[|vs| - 1])
  }

  /** With positive sizes, the global blocks of a declaration list are laid
      out downwards without overlap: a later declaration's block lies
      wholly below an earlier one's. */
  lemma {:induction false} GlobalBlocksDisjoint(vs: seq<VarDec>, i: int, j: int)
    requires forall k :: 0 <= k < |vs| ==> VarSize(vs[k]) >= 1
    requires 0 <= i < j <= |vs|
    ensures GlobalSize(vs[..j]) >= GlobalSize(vs[..i]) + VarSize(vs[i])
    decreases j - i
  {
    assert vs[..i + 1][..i] == vs[..i];
    if j > i + 1 {
      GlobalBlocksDisjoint(vs, i, j - 1);
      assert vs[..j][..j - 1] == vs[..j - 1];
    }
  }

  /** The offset allocateVar gives the `j`th declaration of a list: globals
      downwards by size from `g`, locals one slot each downwards from `f`. */
  function SlotOf(vs: seq<VarDec>, j: int, level: int, g: int, f: int): int
    requires 0 <= j <= |vs|
  {
    if level == 0 then g - GlobalSize(vs[..j]) else f - j
  }

  /** The offsets recorded after allocating a list, one declaration after another. */
  function Offsets(m: map<VarDec, int>, vs: seq<VarDec>, level: int, g: int, f: int): map<VarDec, int>
    decreases |vs|
  {
    if vs == [] then m
    else Offsets(m, vs[..|vs| - 1], level, g, f)[vs[|vs| - 1] := SlotOf(vs, |vs| - 1, level, g, f)]
  }

  function NestLevels(m: map<VarDec, int>, vs: seq<VarDec>, level: int): map<VarDec, int>
    decreases |vs|
  {
    if vs == [] then m else NestLevels(m, vs[..|vs| - 1], level)[vs[|vs| - 1] := level]
  }

  /** A declaration's recorded offset is the slot of its last occurrence in the list. */
  lemma {:induction false} OffsetsLastOccurrence(m: map<VarDec, int>, vs: seq<VarDec>, level: int, g: int, f: int, j: int)
    requires 0 <= j < |vs| && vs[j] !in vs[j + 1..]
    ensures vs[j] in Offsets(m, vs, level, g, f)
    ensures Offsets(m, vs, level, g, f)[vs[j]] == SlotOf(vs, j, level, g, f)
    decreases |vs|
  {
    if j < |vs| - 1 {
      var init := vs[..|vs| - 1];
      SliceExtend(vs, j + 1, |vs| - 1, vs[j]);
      assert init[j + 1..] == vs[j + 1..|vs| - 1];
      OffsetsLastOccurrence(m, init, level, g, f, j);
      assert init[..j] == vs[..j];
    }
  }

  /** Allocation leaves the offsets of everything outside the list alone. */
  lemma {:induction false} OffsetsOutside(m: map<VarDec, int>, vs: seq<VarDec>, level: int, g: int, f: int, v: VarDec)
    requires v !in vs
    ensures v in Offsets(m, vs, level, g, f) <==> v in m
    ensures v in m ==> Offsets(m, vs, level, g, f)[v] == m[v]
    decreases |vs|
  {
    if vs != [] {
      assert vs[..|vs| - 1] <= vs;
      OffsetsOutside(m, vs[..|vs| - 1], level, g, f, v);
    }
  }

  /** Every declaration of the list is recorded at the level it was visited at. */
  lemma {:induction false} NestLevelsOfList(m: map<VarDec, int>, vs: seq<VarDec>, level: int, v: VarDec)
    requires v in vs
    ensures v in NestLevels(m, vs, level) && NestLevels(m, vs, level)[v] == level
    decreases |vs|
  {
    if v != vs[|vs| - 1] {
      var k :| 0 <= k < |vs| && vs[k] == v;
      assert vs[..|vs| - 1][k] == v;
      NestLevelsOfList(m, vs[..|vs| - 1], level, v);
    }
  }

  /** Local slots of a list are distinct, and so are global blocks when the
      sizes are positive: different positions never share an offset. */
  lemma SlotsDistinct(vs: seq<VarDec>, level: int, g: int, f: int, i: int, j: int)
    requires 0 <= i < j < |vs|
    requires level == 0 ==> forall k :: 0 <= k < |vs| ==> VarSize(vs[k]) >= 1
    ensures SlotOf(vs, j, level, g, f) < SlotOf(vs, i, level, g, f)
    ensures level == 0 ==> SlotOf(vs, j, level, g, f) <= SlotOf(vs, i, level, g, f) - VarSize(vs[i])
  {
    if level == 0 {
      GlobalBlocksDisjoint(vs, i, j);
    }
  }

  lemma SliceExtend(vs: seq<VarDec>, a: int, b: int, x: VarDec)
    requires 0 <= a <= b < |vs|
    ensures x in vs[a..b + 1] <==> x in vs[a..b] || x == vs[b]
  {
    assert vs[a..b + 1] == vs[a..b] + [vs[b]];
  }

  lemma GlobalSizeAppend(vs: seq<VarDec>, v: VarDec)
    ensures GlobalSize(vs + [v]) == GlobalSize(vs) + VarSize(v)
  {
    assert (vs + [v])[..|vs|] == vs;
  }

  /** The global block of one more declaration of a list. */
  lemma GlobalSizeStep(ds: seq<Dec>, i: int)
    requires 0 <= i < |ds|
    ensures GlobalSize(GlobalVars(ds[..i + 1])) ==
      GlobalSize(GlobalVars(ds[..i])) + if ds[i].VarDecl? then VarSize(ds[i].v) else 0
  {
    assert ds[..i + 1][..i] == ds[..i];
    if ds[i].VarDecl? {
      assert GlobalVars(ds[..i + 1]) == GlobalVars(ds[..i]) + [ds[i].v];
      GlobalSizeAppend(GlobalVars(ds[..i]), ds[i].v);
    } else {
      assert GlobalVars(ds[..i + 1]) == GlobalVars(ds[..i]);
    }
  }

  function Max(a: int, b: int): int {
    if a < b then b else a
  }

  /** The local declarations inside an expression, each of which takes one
      frame slot when the code generator walks it. */
  function LocalCount(e: Exp): nat
    decreases e, 1
  {
    match e
    case VarExp(_, _, v) => if v.IndexVar? then LocalCount(v.index) else 0
    case CallExp(_, _, _, args) => LocalCounts(args)
    case OpExp(_, _, left, _, right) => LocalCount(left) + LocalCount(right)
    case AssignExp(_, _, lhs, rhs) => LocalCount(lhs) + LocalCount(rhs)
    case IfExp(_, _, test, thenpart, elsepart) => LocalCount(test) + LocalCount(thenpart) + LocalCount(elsepart)
    case WhileExp(_, _, test, body) => LocalCount(test) + LocalCount(body)
    case ReturnExp(_, _, x) => LocalCount(x)
    case CompoundExp(_, _, decs, exps) => |decs| + LocalCounts(exps)
    case _ => 0
  }

  function LocalCounts(es: seq<Exp>): nat
    decreases es, 0, |es|
  {
    if es == [] then 0 else LocalCounts(es[..|es| - 1]) + LocalCount(es[|es| - 1])
  }

  /** The finale's instructions from `loc`, for the given global offset and main entry. */
  function Finale(loc: int, globalOffset: int, mainEntry: int): seq<Line> {
    [RegMem(loc, ST, FP, globalOffset, FP, "Push old frame pointer"),
     RegMem(loc + 1, LDA, FP, globalOffset, FP, "Push frame"),
     RegMem(loc + 2, LDA, AC, 1, PC, "Load AC with return pointer"),
     RegMem(loc + 3, LDA, PC, mainEntry - (loc + 4), PC, "Jump to main location"),
     RegMem(loc + 4, LD, FP, 0, FP, "Pop frame"),
     RegOnly(loc + 5, HALT, 0, 0, 0, "")]
  }

  /** The global variable declarations of a program, in order. */
  function GlobalVars(ds: seq<Dec>): (vs: seq<VarDec>)
    ensures forall v :: v in vs <==> VarDecl(v) in ds
    decreases |ds|
  {
    if ds == [] then []
    else GlobalVars(ds[..|ds| - 1]) + (if ds[|ds| - 1].VarDecl? then [ds[|ds| - 1].v] else [])
  }

  /** The input routine starting at `loc`: read into AC and return. */
  function InputRoutine(loc: int): seq<Line> {
    [StoreReturn(loc), RegOnly(loc + 1, IN, 0, 0, 0, "Get input"), ReturnToCaller(loc + 2)]
  }

  /** The output routine starting at `loc`: print the argument stored two
      below the frame pointer and return. */
  function OutputRoutine(loc: int): seq<Line> {
    [StoreReturn(loc), RegMem(loc + 1, LD, 0, -2, FP, "Load output value"),
     RegOnly(loc + 2, OUT, 0, 0, 0, "Display output"), ReturnToCaller(loc + 3)]
  }

  class CodeGenerator {
    var output: seq<Line>
    var mainEntry: int
    var globalOffset: int
    var inputLoc: int
    var outputLoc: int
    var emitLoc: int
    var highEmitLoc: int
    var fpOffset: int
    /** The `offset` and `nestLevel` fields of the declarations allocated. */
    var offset: map<VarDec, int>
    var nestLevel: map<VarDec, int>
    /** The `funaddr` fields set; a FunctionDec not in the map holds INITIAL_FUNADDR. */
    var funaddr: map<Dec, int>
    /** The slots reserved by the backpatches under way, outermost first. */
    ghost var pending: seq<int>

    ghost function Cursors(): (int, int, seq<int>)
      reads this
    {
      (emitLoc, highEmitLoc, pending)
    }

    function Entries(): (int, int, int, map<Dec, int>)
      reads this
    {
      (mainEntry, inputLoc, outputLoc, funaddr)
    }

    function Frames(): (int, int, map<VarDec, int>, map<VarDec, int>)
      reads this
    {
      (globalOffset, fpOffset, offset, nestLevel)
    }

    ghost predicate Valid()
      reads this
    {
      WellPlaced(output, emitLoc, highEmitLoc, pending)
    }

    /** Valid, with the cursor at the high-water mark: the state between
        the generator's steps. */
    ghost predicate Ready()
      reads this
    {
      Valid() && emitLoc == highEmitLoc
    }

    ghost predicate EntriesPlaced()
      reads this
    {
      Placed(output, funaddr, mainEntry)
    }

    ghost predicate IOPlaced()
      reads this
    {
      StartsRoutine(output, inputLoc) && StartsRoutine(output, outputLoc)
    }

    constructor ()
      ensures output == [] && emitLoc == 0 && highEmitLoc == 0 && pending == []
      ensures mainEntry == 0 && globalOffset == 0 && inputLoc == 0 && outputLoc == 0 && fpOffset == 0
      ensures offset == map[] && nestLevel == map[] && funaddr == map[]
      ensures Ready() && EntriesPlaced()
    {
      output := [];
      mainEntry, globalOffset, inputLoc, outputLoc := 0, 0, 0, 0;
      emitLoc, highEmitLoc, fpOffset := 0, 0, 0;
      offset, nestLevel, funaddr := map[], map[], map[];
      pending := [];
    }

    /** emit: one instruction at the cursor, which advances by one and
        raises the high-water mark if it passes it. */
    method Emit(code: OpCode, typ: OpType, r: int, s: int, t: int, c: string, isAbsolute: bool)
      modifies this
      ensures output == old(output) + [Encode(old(emitLoc), code, typ, r, s, t, c, isAbsolute)]
      ensures emitLoc == old(emitLoc) + 1 && highEmitLoc == Max(old(highEmitLoc), emitLoc)
      ensures pending == old(pending) && Entries() == old(Entries()) && Frames() == old(Frames())
      ensures old(Ready()) ==> Ready() && Keeps(old(output), output)
    {
      if Ready() {
        forall p | p in Image(output)
          ensures p < emitLoc
        {
          LoadedBelowHigh(output, emitLoc, highEmitLoc, pending, p);
        }
        ImageAppendOne(output, Encode(emitLoc, code, typ, r, s, t, c, isAbsolute));
      }
      output := output + [Encode(emitLoc, code, typ, r, s, t, c, isAbsolute)];
      emitLoc := emitLoc + 1;
      if highEmitLoc < emitLoc {
        highEmitLoc := emitLoc;
      }
    }

    method EmitRO(code: OpCode, r: int, s: int, t: int, c: string)
      modifies this
      ensures output == old(output) + [RegOnly(old(emitLoc), code, r, s, t, c)]
      ensures emitLoc == old(emitLoc) + 1 && highEmitLoc == Max(old(highEmitLoc), emitLoc)
      ensures pending == old(pending) && Entries() == old(Entries()) && Frames() == old(Frames())
      ensures old(Ready()) ==> Ready() && Keeps(old(output), output)
    {
      Emit(code, RO, r, s, t, c, false);
    }

    method EmitRM(code: OpCode, r: int, d: int, s: int, c: string)
      modifies this
      ensures output == old(output) + [RegMem(old(emitLoc), code, r, d, s, c)]
      ensures emitLoc == old(emitLoc) + 1 && highEmitLoc == Max(old(highEmitLoc), emitLoc)
      ensures pending == old(pending) && Entries() == old(Entries()) && Frames() == old(Frames())
      ensures old(Ready()) ==> Ready() && Keeps(old(output), output)
    {
      Emit(code, RM, r, d, s, c, false);
    }

    method EmitRMAbs(code: OpCode, r: int, a: int, c: string)
      modifies this
      ensures output == old(output) + [RegMem(old(emitLoc), code, r, a - (old(emitLoc) + 1), PC, c)]
      ensures PcTarget(output[|output| - 1]) == a
      ensures emitLoc == old(emitLoc) + 1 && highEmitLoc == Max(old(highEmitLoc), emitLoc)
      ensures pending == old(pending) && Entries() == old(Entries()) && Frames() == old(Frames())
      ensures old(Ready()) ==> Ready() && Keeps(old(output), output)
    {
      Emit(code, RM, r, a, 0, c, true);
    }

    /** emitSkip: reserve `distance` locations; returns the old cursor. */
    method EmitSkip(distance: int) returns (i: int)
      modifies this
      ensures i == old(emitLoc) && emitLoc == old(emitLoc) + distance
      ensures highEmitLoc == Max(old(highEmitLoc), emitLoc)
      ensures output == old(output) && pending == old(pending)
      ensures Entries() == old(Entries()) && Frames() == old(Frames())
    {
      i := emitLoc;
      emitLoc := emitLoc + distance;
      if highEmitLoc < emitLoc {
        highEmitLoc := emitLoc;
      }
    }

    /** emitBackup: move the cursor back to `loc`, flagging a location past
        the high-water mark. */
    method EmitBackup(loc: int)
      modifies this
      ensures emitLoc == loc && highEmitLoc == old(highEmitLoc)
      ensures output == old(output) + if loc > old(highEmitLoc) then [Comment("BUG in emitBackup!!")] else []
      ensures pending == old(pending) && Entries() == old(Entries()) && Frames() == old(Frames())
    {
      if loc > highEmitLoc {
        EmitComment("BUG in emitBackup!!");
      }
      emitLoc := loc;
    }

    /** emitRestore: return the cursor to the high-water mark. */
    method EmitRestore()
      modifies this
      ensures emitLoc == highEmitLoc == old(highEmitLoc)
      ensures output == old(output) && pending == old(pending)
      ensures Entries() == old(Entries()) && Frames() == old(Frames())
    {
      emitLoc := highEmitLoc;
    }

    method EmitComment(c: string)
      modifies this
      ensures output == old(output) + [Comment(c)] && Image(output) == Image(old(output))
      ensures Cursors() == old(Cursors()) && Entries() == old(Entries()) && Frames() == old(Frames())
      ensures old(Valid()) ==> Valid()
    {
      ImageAppendOne(output, Comment(c));
      output := output + [Comment(c)];
      assert output[..|old(output)|] == old(output);
      if old(Valid()) {
        CommentsKeepWellPlaced(old(output), output, emitLoc, highEmitLoc, pending);
      }
    }

    /** The first half of backpatch: reserve one slot for the jump. */
    method BeginBackpatch() returns (s: int)
      requires Ready()
      modifies this
      ensures s == old(emitLoc) && emitLoc == s + 1 && Ready()
      ensures pending == old(pending) + [s]
      ensures output == old(output) && Entries() == old(Entries()) && Frames() == old(Frames())
    {
      s := EmitSkip(1);
      pending := pending + [s];
    }

    /** The second half of backpatch: record the end `e`, back up to the
        reserved slot, write the jump to `e` there and restore the cursor.
        The slot had never been written, so the jump overwrites nothing. */
    method EndBackpatch(s: int, jmpMsg: string)
      requires Ready() && pending != [] && s == pending[|pending| - 1]
      modifies this
      ensures output == old(output) + [JumpOver(s, old(emitLoc), jmpMsg)]
      ensures JumpOver(s, old(emitLoc), jmpMsg) == RegMem(s, LDA, PC, old(emitLoc) - s - 1, PC, jmpMsg)
      ensures PcTarget(JumpOver(s, old(emitLoc), jmpMsg)) == old(emitLoc)
      ensures s !in Image(old(output))
      ensures Image(output) == Image(old(output))[s := JumpOver(s, old(emitLoc), jmpMsg)]
      ensures Keeps(old(output), output)
      ensures emitLoc == highEmitLoc == old(emitLoc) && Ready()
      ensures pending == old(pending)[..|old(pending)| - 1]
      ensures Entries() == old(Entries()) && Frames() == old(Frames())
    {
      ImageDomain(output, s);
      var e := EmitSkip(0);
      EmitBackup(s);
      EmitRMAbs(LDA, PC, e, jmpMsg);
      EmitRestore();
      pending := pending[..|pending| - 1];
      ImageAppendOne(old(output), JumpOver(s, e, jmpMsg));
      assert forall j :: 0 <= j < |pending| ==> pending[j] == old(pending)[j];
    }

    /** allocateVar: a global takes `size` words below the global offset;
        a local takes the next frame slot, whatever its size. */
    method AllocateVar(v: VarDec, level: int, size: int)
      modifies this
      ensures nestLevel == old(nestLevel)[v := level]
      ensures level == 0 ==> (offset == old(offset)[v := old(globalOffset)] &&
                              globalOffset == old(globalOffset) - size && fpOffset == old(fpOffset))
      ensures level != 0 ==> (offset == old(offset)[v := old(fpOffset)] &&
                              fpOffset == old(fpOffset) - 1 && globalOffset == old(globalOffset))
      ensures output == old(output) +
        [Comment(if level == 0 then "Allocating variable " + v.name else "Processing local var: " + v.name)]
      ensures Cursors() == old(Cursors()) && Entries() == old(Entries())
      ensures old(Valid()) ==> Valid()
    {
      nestLevel := nestLevel[v := level];
      if level == 0 {
        EmitComment("Allocating variable " + v.name);
        offset := offset[v := globalOffset];
        globalOffset := globalOffset - size;
      } else {
        EmitComment("Processing local var: " + v.name);
        offset := offset[v := fpOffset];
        fpOffset := fpOffset - 1;
      }
    }

    /** visit(SimpleDec) and visit(ArrayDec). */
    method VisitVarDec(v: VarDec, level: int)
      modifies this
      ensures nestLevel == old(nestLevel)[v := level]
      ensures level == 0 ==> (offset == old(offset)[v := old(globalOffset)] &&
                              globalOffset == old(globalOffset) - VarSize(v) && fpOffset == old(fpOffset))
      ensures level != 0 ==> (offset == old(offset)[v := old(fpOffset)] &&
                              fpOffset == old(fpOffset) - 1 && globalOffset == old(globalOffset))
      ensures CommentsOnly(old(output), output) && |output| == |old(output)| + 1
      ensures Cursors() == old(Cursors()) && Entries() == old(Entries())
      ensures old(Valid()) ==> Valid()
    {
      AllocateVar(v, level, if v.ArrayDec? then v.size else 1);
    }

    /** visit(VarDecList): the declarations allocated in order. */
    method VisitVarDecs(vs: seq<VarDec>, level: int)
      modifies this
      ensures level == 0 ==> globalOffset == old(globalOffset) - GlobalSize(vs) && fpOffset == old(fpOffset)
      ensures level != 0 ==> fpOffset == old(fpOffset) - |vs| && globalOffset == old(globalOffset)
      ensures offset == Offsets(old(offset), vs, level, old(globalOffset), old(fpOffset))
      ensures nestLevel == NestLevels(old(nestLevel), vs, level)
      ensures CommentsOnly(old(output), output)
      ensures Cursors() == old(Cursors()) && Entries() == old(Entries())
      ensures old(Valid()) ==> Valid()
    {
      var i := 0;
      while i < |vs|
        invariant 0 <= i <= |vs|
        invariant level == 0 ==> globalOffset == old(globalOffset) - GlobalSize(vs[..i]) && fpOffset == old(fpOffset)
        invariant level != 0 ==> fpOffset == old(fpOffset) - i && globalOffset == old(globalOffset)
        invariant offset == Offsets(old(offset), vs[..i], level, old(globalOffset), old(fpOffset))
        invariant nestLevel == NestLevels(old(nestLevel), vs[..i], level)
        invariant CommentsOnly(old(output), output)
        invariant Cursors() == old(Cursors()) && Entries() == old(Entries())
        invariant old(Valid()) ==> Valid()
      {
        assert vs[..i + 1][..i] == vs[..i];
        ghost var out := output;
        VisitVarDec(vs[i], level);
        CommentsOnlyTrans(old(output), out, output);
        i := i + 1;
      }
      assert vs[..i] == vs;
    }

    /** The expression visits only walk the tree: they emit no instruction,
        and each block's declarations take frame slots. */
    method VisitExp(e: Exp, level: int)
      requires level >= 0
      modifies this
      ensures fpOffset == old(fpOffset) - LocalCount(e) && globalOffset == old(globalOffset)
      ensures CommentsOnly(old(output), output)
      ensures Cursors() == old(Cursors()) && Entries() == old(Entries())
      ensures old(Valid()) ==> Valid()
      decreases e, 1
    {
      match e
      case VarExp(_, _, v) =>
        if v.IndexVar? {
          VisitExp(v.index, level);
        }
      case CallExp(_, _, _, args) =>
        VisitExps(args, level);
      case OpExp(_, _, _, _, _) =>
        VisitOperands(e, level);
      case AssignExp(_, _, _, _) =>
        VisitOperands(e, level);
      case IfExp(_, _, _, _, _) =>
        VisitOperands(e, level);
      case WhileExp(_, _, _, _) =>
        VisitOperands(e, level);
      case ReturnExp(_, _, x) =>
        VisitExp(x, level);
      case CompoundExp(_, _, decs, exps) =>
        VisitVarDecs(decs, level + 1);
        ghost var out := output;
        VisitExps(exps, level + 1);
        CommentsOnlyTrans(old(output), out, output);
      case NilExp(_, _) =>
      case IntExp(_, _, _) =>
      case BoolExp(_, _, _) =>
    }

    /** The forms with two or three operands, visited left to right. */
    method VisitOperands(e: Exp, level: int)
      requires level >= 0 && (e.OpExp? || e.AssignExp? || e.IfExp? || e.WhileExp?)
      modifies this
      ensures fpOffset == old(fpOffset) - LocalCount(e) && globalOffset == old(globalOffset)
      ensures CommentsOnly(old(output), output)
      ensures Cursors() == old(Cursors()) && Entries() == old(Entries())
      ensures old(Valid()) ==> Valid()
      decreases e, 0
    {
      match e
      case OpExp(_, _, left, _, right) =>
        VisitExp(left, level);
        ghost var out := output;
        VisitExp(right, level);
        CommentsOnlyTrans(old(output), out, output);
      case AssignExp(_, _, lhs, rhs) =>
        VisitExp(lhs, level);
        ghost var out := output;
        VisitExp(rhs, level);
        CommentsOnlyTrans(old(output), out, output);
      case IfExp(_, _, test, thenpart, elsepart) =>
        VisitExp(test, level);
        ghost var out1 := output;
        VisitExp(thenpart, level);
        CommentsOnlyTrans(old(output), out1, output);
        ghost var out2 := output;
        VisitExp(elsepart, level);
        CommentsOnlyTrans(old(output), out2, output);
      case WhileExp(_, _, test, body) =>
        VisitExp(test, level);
        ghost var out := output;
        VisitExp(body, level);
        CommentsOnlyTrans(old(output), out, output);
    }

    method VisitExps(es: seq<Exp>, level: int)
      requires level >= 0
      modifies this
      ensures fpOffset == old(fpOffset) - LocalCounts(es) && globalOffset == old(globalOffset)
      ensures CommentsOnly(old(output), output)
      ensures Cursors() == old(Cursors()) && Entries() == old(Entries())
      ensures old(Valid()) ==> Valid()
      decreases es, 0
    {
      var i := 0;
      while i < |es|
        invariant 0 <= i <= |es|
        invariant fpOffset == old(fpOffset) - LocalCounts(es[..i]) && globalOffset == old(globalOffset)
        invariant CommentsOnly(old(output), output)
        invariant Cursors() == old(Cursors()) && Entries() == old(Entries())
        invariant old(Valid()) ==> Valid()
      {
        assert es[..i + 1][..i] == es[..i];
        ghost var out := output;
        VisitExp(es[i], level);
        CommentsOnlyTrans(old(output), out, output);
        i := i + 1;
      }
      assert es[..i] == es;
    }

    /** visit(FunctionDec): a prototype emits nothing; a definition is
        generated by VisitFunctionDef. */
    method VisitFunctionDec(d: Dec, level: int)
      requires d.FunctionDec? && level >= 0 && Ready()
      modifies this
      ensures Ready() && pending == old(pending)
      ensures d.IsPrototype() ==>
        (output == old(output) && Entries() == old(Entries()) && Frames() == old(Frames()) && emitLoc == old(emitLoc))
      ensures !d.IsPrototype() ==>
        (funaddr == old(funaddr)[d := old(emitLoc) + 1] &&
         mainEntry == (if d.func == MAIN_FUNCTION_NAME then old(emitLoc) + 1 else old(mainEntry)) &&
         inputLoc == old(inputLoc) && outputLoc == old(outputLoc) &&
         emitLoc == old(emitLoc) + 3 &&
         Image(output) == Image(old(output))[old(emitLoc) + 1 := StoreReturn(old(emitLoc) + 1)]
                                            [old(emitLoc) + 2 := ReturnToCaller(old(emitLoc) + 2)]
                                            [old(emitLoc) := JumpOver(old(emitLoc), old(emitLoc) + 3, "Jump around function")] &&
         fpOffset == old(fpOffset) - |d.params| - LocalCount(d.body) && globalOffset == old(globalOffset))
    {
      var isPrototype := d.body.NilExp?;
      if !isPrototype {
        VisitFunctionDef(d, level);
      }
    }

    /** A function definition gets the address after its jump-around slot,
        which is also main's entry for main; its code is the return-address
        store, its body (which emits no instruction) and the return, and the
        slot jumps past it. */
    method VisitFunctionDef(d: Dec, level: int)
      requires d.FunctionDec? && level >= 0 && Ready()
      modifies this
      ensures Ready() && pending == old(pending)
      ensures funaddr == old(funaddr)[d := old(emitLoc) + 1]
      ensures mainEntry == if d.func == MAIN_FUNCTION_NAME then old(emitLoc) + 1 else old(mainEntry)
      ensures inputLoc == old(inputLoc) && outputLoc == old(outputLoc)
      ensures emitLoc == old(emitLoc) + 3
      ensures Image(output) == Image(old(output))[old(emitLoc) + 1 := StoreReturn(old(emitLoc) + 1)]
                                                 [old(emitLoc) + 2 := ReturnToCaller(old(emitLoc) + 2)]
                                                 [old(emitLoc) := JumpOver(old(emitLoc), old(emitLoc) + 3, "Jump around function")]
      ensures fpOffset == old(fpOffset) - |d.params| - LocalCount(d.body) && globalOffset == old(globalOffset)
    {
      EnterFunction(d);
      VisitFunctionJumpedOver(d, level);
    }

    /** The start of visit(FunctionDec): main's entry, the comment, and the
        function's address, one past the jump slot about to be reserved. */
    method EnterFunction(d: Dec)
      requires d.FunctionDec? && Ready()
      modifies this
      ensures Ready() && Cursors() == old(Cursors()) && Frames() == old(Frames())
      ensures Image(output) == Image(old(output))
      ensures funaddr == old(funaddr)[d := old(emitLoc) + 1]
      ensures mainEntry == if d.func == MAIN_FUNCTION_NAME then old(emitLoc) + 1 else old(mainEntry)
      ensures inputLoc == old(inputLoc) && outputLoc == old(outputLoc)
    {
      if d.func == MAIN_FUNCTION_NAME {
        mainEntry := emitLoc + 1;
      }
      ghost var img := Image(output);
      EmitComment("Processing function: " + d.func);
      assert Image(output) == img && Ready();
      funaddr := funaddr[d := emitLoc + 1];
    }

    /** backpatch("Jump around function", ...) around the function's code. */
    method VisitFunctionJumpedOver(d: Dec, level: int)
      requires d.FunctionDec? && level >= 0 && Ready()
      modifies this
      ensures Ready() && pending == old(pending) && Entries() == old(Entries())
      ensures emitLoc == old(emitLoc) + 3
      ensures Image(output) == Image(old(output))[old(emitLoc) + 1 := StoreReturn(old(emitLoc) + 1)]
                                                 [old(emitLoc) + 2 := ReturnToCaller(old(emitLoc) + 2)]
                                                 [old(emitLoc) := JumpOver(old(emitLoc), old(emitLoc) + 3, "Jump around function")]
      ensures fpOffset == old(fpOffset) - |d.params| - LocalCount(d.body) && globalOffset == old(globalOffset)
    {
      var s := BeginBackpatch();
      VisitFunctionCode(d, level);
      EndBackpatch(s, "Jump around function");
    }

    /** The code backpatch wraps for a function: the return-address store,
        the parameters and the body, which add only comments, and the return. */
    method VisitFunctionCode(d: Dec, level: int)
      requires d.FunctionDec? && level >= 0 && Ready()
      modifies this
      ensures Ready() && pending == old(pending) && Entries() == old(Entries())
      ensures emitLoc == old(emitLoc) + 2
      ensures Image(output) == Image(old(output))[old(emitLoc) := StoreReturn(old(emitLoc))]
                                                 [old(emitLoc) + 1 := ReturnToCaller(old(emitLoc) + 1)]
      ensures fpOffset == old(fpOffset) - |d.params| - LocalCount(d.body) && globalOffset == old(globalOffset)
    {
      EmitRM(ST, AC, -1, FP, "Store return address");
      ImageAppendOne(old(output), StoreReturn(old(emitLoc)));
      ghost var out1 := output;
      VisitVarDecs(d.params, level + 1);
      ghost var out2 := output;
      VisitExp(d.body, level);
      CommentsOnlyTrans(out1, out2, output);
      ImageIgnoresComments(out1, output);
      ghost var out3 := output;
      EmitRM(LD, PC, -1, FP, "Return back to caller");
      ImageAppendOne(out3, ReturnToCaller(old(emitLoc) + 1));
    }

    method VisitDec(d: Dec, level: int)
      requires level >= 0 && Ready() && EntriesPlaced() && IOPlaced()
      modifies this
      ensures Ready() && EntriesPlaced() && IOPlaced() && pending == old(pending)
      ensures inputLoc == old(inputLoc) && outputLoc == old(outputLoc) && old(emitLoc) <= emitLoc
      ensures Keeps(old(output), output)
      ensures globalOffset == old(globalOffset) - if level == 0 && d.VarDecl? then VarSize(d.v) else 0
    {
      match d
      case VarDecl(v) =>
        VisitVarDec(v, level);
        ImageIgnoresComments(old(output), output);
        PlacedKept(old(output), output, funaddr, mainEntry);
      case FunctionDec(_, _, _, _, _, _) =>
        ghost var img := Image(output);
        forall p | p in img
          ensures p < emitLoc
        {
          LoadedBelowHigh(output, emitLoc, highEmitLoc, pending, p);
        }
        VisitFunctionDec(d, level);
        if d.IsPrototype() {
          assert Keeps(old(output), output);
        } else {
          FunctionAbove(old(output), output, old(emitLoc), JumpOver(old(emitLoc), old(emitLoc) + 3, "Jump around function"));
          PlacedKept(old(output), output, old(funaddr), old(mainEntry));
          PlacedAdd(output, old(funaddr), old(mainEntry), d, old(emitLoc) + 1, d.func == MAIN_FUNCTION_NAME);
        }
    }

    /** visit(DecList): the program's declarations in order. */
    method VisitDecs(ds: seq<Dec>, level: int)
      requires level >= 0 && Ready() && EntriesPlaced() && IOPlaced()
      modifies this
      ensures Ready() && EntriesPlaced() && IOPlaced() && pending == old(pending)
      ensures inputLoc == old(inputLoc) && outputLoc == old(outputLoc) && old(emitLoc) <= emitLoc
      ensures Keeps(old(output), output)
      ensures level == 0 ==> globalOffset == old(globalOffset) - GlobalSize(GlobalVars(ds))
    {
      var i := 0;
      while i < |ds|
        invariant 0 <= i <= |ds|
        invariant Ready() && EntriesPlaced() && IOPlaced() && pending == old(pending)
        invariant inputLoc == old(inputLoc) && outputLoc == old(outputLoc) && old(emitLoc) <= emitLoc
        invariant Keeps(old(output), output)
        invariant level == 0 ==> globalOffset == old(globalOffset) - GlobalSize(GlobalVars(ds[..i]))
      {
        ghost var out := output;
        GlobalSizeStep(ds, i);
        VisitDec(ds[i], level);
        KeepsTrans(old(output), out, output);
        i := i + 1;
      }
      assert ds[..i] == ds;
    }

    /** getCallerAddr: the I/O routines by name, then the callee's recorded
        address; 0 when the call has no resolved declaration. */
    function GetCallerAddr(func: string, dtype: Option<Dec>): (a: int)
      requires dtype.Some? ==> dtype.value.FunctionDec?
      reads this
      ensures func == "input" ==> a == inputLoc
      ensures func != "input" && func == "output" ==> a == outputLoc
    {
      if func == "input" then inputLoc
      else if func == "output" then outputLoc
      else if dtype.Some? then (if dtype.value in funaddr then funaddr[dtype.value] else INITIAL_FUNADDR)
      else 0
    }

    /** generatePrelude: load GP with the highest address, copy it to FP and
        clear location 0. */
    method GeneratePrelude()
      requires Ready()
      modifies this
      ensures output == old(output) + [Comment("Prelude"),
                                       RegMem(old(emitLoc), LD, GP, 0, AC, "Load GP with max address"),
                                       RegMem(old(emitLoc) + 1, LDA, FP, 0, GP, "Copy GP to FP"),
                                       RegMem(old(emitLoc) + 2, ST, AC, 0, AC, "Clear memory location 0")]
      ensures emitLoc == old(emitLoc) + 3 && Ready() && pending == old(pending)
      ensures Entries() == old(Entries()) && Frames() == old(Frames())
    {
      EmitComment("Prelude");
      EmitRM(LD, GP, 0, AC, "Load GP with max address");
      EmitRM(LDA, FP, 0, GP, "Copy GP to FP");
      EmitRM(ST, AC, 0, AC, "Clear memory location 0");
    }

    /** generateIORoutines: the input and output routines inside one
        backpatch, so that execution jumps over them. */
    method GenerateIORoutines()
      requires Ready()
      modifies this
      ensures inputLoc == old(emitLoc) + 1 && outputLoc == old(emitLoc) + 4
      ensures emitLoc == old(emitLoc) + 8 && Ready() && pending == old(pending)
      ensures output == old(output) + [Comment("Input routine")] + InputRoutine(inputLoc) +
                        [Comment("Output routine")] + OutputRoutine(outputLoc) +
                        [JumpOver(old(emitLoc), emitLoc, "Jump over I/O routines")]
      ensures mainEntry == old(mainEntry) && funaddr == old(funaddr) && Frames() == old(Frames())
      ensures IOPlaced() && Keeps(old(output), output)
      ensures old(emitLoc) in Image(output) && Image(output)[old(emitLoc)] == JumpOver(old(emitLoc), emitLoc, "Jump over I/O routines")
    {
      EmitComment("Input routine");
      var s := BeginBackpatch();
      ghost var out1 := output;
      EmitInputRoutine();
      ghost var out2 := output;
      EmitComment("Output routine");
      EmitOutputRoutine();
      ghost var out3 := output;
      KeepsTrans(out1, out2, out3);
      EndBackpatch(s, "Jump over I/O routines");
      KeepsTrans(out1, out3, output);
    }

    method EmitInputRoutine()
      requires Ready()
      modifies this
      ensures inputLoc == old(emitLoc) && emitLoc == old(emitLoc) + 3 && Ready() && pending == old(pending)
      ensures output == old(output) + InputRoutine(inputLoc) && Keeps(old(output), output)
      ensures inputLoc in Image(output) && Image(output)[inputLoc] == StoreReturn(inputLoc)
      ensures mainEntry == old(mainEntry) && outputLoc == old(outputLoc) && funaddr == old(funaddr) && Frames() == old(Frames())
    {
      inputLoc := emitLoc;
      EmitRM(ST, AC, -1, FP, "Store return address");
      ImageAppendOne(old(output), StoreReturn(inputLoc));
      ghost var out1 := output;
      EmitRO(IN, 0, 0, 0, "Get input");
      ghost var out2 := output;
      EmitRM(LD, PC, -1, FP, "Return back to caller");
      KeepsTrans(old(output), out1, out2);
      KeepsTrans(old(output), out2, output);
    }

    method EmitOutputRoutine()
      requires Ready()
      modifies this
      ensures outputLoc == old(emitLoc) && emitLoc == old(emitLoc) + 4 && Ready() && pending == old(pending)
      ensures output == old(output) + OutputRoutine(outputLoc) && Keeps(old(output), output)
      ensures outputLoc in Image(output) && Image(output)[outputLoc] == StoreReturn(outputLoc)
      ensures mainEntry == old(mainEntry) && inputLoc == old(inputLoc) && funaddr == old(funaddr) && Frames() == old(Frames())
    {
      outputLoc := emitLoc;
      EmitRM(ST, AC, -1, FP, "Store return address");
      ImageAppendOne(old(output), StoreReturn(outputLoc));
      ghost var out1 := output;
      EmitRM(LD, 0, -2, FP, "Load output value");
      ghost var out2 := output;
      EmitRO(OUT, 0, 0, 0, "Display output");
      KeepsTrans(old(output), out1, out2);
      ghost var out3 := output;
      EmitRM(LD, PC, -1, FP, "Return back to caller");
      KeepsTrans(old(output), out2, out3);
      KeepsTrans(old(output), out3, output);
    }

    /** generateFinale: push a frame above the globals, call main and halt
        when it returns. */
    method GenerateFinale()
      requires Ready()
      modifies this
      ensures output == old(output) + [Comment("Finale")] + Finale(old(emitLoc), globalOffset, mainEntry)
      ensures emitLoc == old(emitLoc) + 6 && Ready() && pending == old(pending) && Keeps(old(output), output)
      ensures Entries() == old(Entries()) && Frames() == old(Frames())
    {
      EmitComment("Finale");
      ghost var out0 := output;
      EmitRM(ST, FP, globalOffset, FP, "Push old frame pointer");
      ghost var out1 := output;
      EmitRM(LDA, FP, globalOffset, FP, "Push frame");
      KeepsTrans(out0, out1, output);
      ghost var out2 := output;
      EmitRM(LDA, AC, 1, PC, "Load AC with return pointer");
      KeepsTrans(out0, out2, output);
      ghost var out3 := output;
      EmitRMAbs(LDA, PC, mainEntry, "Jump to main location");
      KeepsTrans(out0, out3, output);
      ghost var out4 := output;
      EmitRM(LD, FP, 0, FP, "Pop frame");
      KeepsTrans(out0, out4, output);
      ghost var out5 := output;
      EmitRO(HALT, 0, 0, 0, "");
      KeepsTrans(out0, out5, output);
    }

    /** The prelude and the I/O routines, from an empty program. */
    method GenerateHeader()
      requires output == [] && emitLoc == 0 && highEmitLoc == 0 && pending == []
      requires funaddr == map[] && mainEntry == 0
      modifies this
      ensures inputLoc == 4 && outputLoc == 7 && emitLoc == 11
      ensures 3 in Image(output) && Image(output)[3] == JumpOver(3, 11, "Jump over I/O routines")
      ensures Ready() && EntriesPlaced() && IOPlaced() && pending == []
      ensures mainEntry == 0 && funaddr == map[] && Frames() == old(Frames())
    {
      GeneratePrelude();
      GenerateIORoutines();
    }

    /** generate: the prelude at 0..2, the jump over the I/O routines at 3,
        input at 4 and output at 7, the program from 11 on, then the finale.
        Every address a call can resolve to starts by storing the return
        address, and so does main's entry when main was defined. */
    method Generate(program: seq<Dec>)
      requires output == [] && emitLoc == 0 && highEmitLoc == 0 && pending == []
      requires funaddr == map[] && mainEntry == 0 && globalOffset == 0
      modifies this
      ensures inputLoc == 4 && outputLoc == 7
      ensures 3 in Image(output) && Image(output)[3] == JumpOver(3, 11, "Jump over I/O routines")
      ensures Ready() && EntriesPlaced() && IOPlaced()
      ensures globalOffset == -GlobalSize(GlobalVars(program))
      ensures 6 <= emitLoc && 7 <= |output| &&
        output[|output| - 6..] == Finale(emitLoc - 6, globalOffset, mainEntry)
    {
      GenerateHeader();
      ghost var out2 := output;
      VisitDecs(program, 0);
      ghost var out3 := output;
      ghost var p := emitLoc;
      GenerateFinale();
      KeepsTrans(out2, out3, output);
      PlacedKept(out3, output, funaddr, mainEntry);
      ghost var fin := Finale(p, globalOffset, mainEntry);
      SuffixOf(out3 + [Comment("Finale")], fin);
      assert |output| - 6 == |out3 + [Comment("Finale")]|;
    }
  }

  /** Every address a call resolves to starts by storing the return
      address: the I/O routines by name, and a callee whose definition was
      generated. */
  lemma CallTargetsStoreReturn(cg: CodeGenerator, func: string, dtype: Option<Dec>)
    requires cg.EntriesPlaced() && cg.IOPlaced()
    requires dtype.Some? ==> dtype.value.FunctionDec?
    requires func == "input" || func == "output" || (dtype.Some? && dtype.value in cg.funaddr)
    ensures cg.GetCallerAddr(func, dtype) in Image(cg.output)
    ensures Image(cg.output)[cg.GetCallerAddr(func, dtype)] == StoreReturn(cg.GetCallerAddr(func, dtype))
  {
  }

  /** A call whose resolved declaration never had its address assigned (a
      prototype node, since definitions are recorded on their own node)
      jumps to INITIAL_FUNADDR; an unresolved call jumps to 0. */
  lemma UnassignedCallTargets(cg: CodeGenerator, func: string, dtype: Option<Dec>)
    requires dtype.Some? ==> dtype.value.FunctionDec?
    requires func != "input" && func != "output"
    ensures dtype.None? ==> cg.GetCallerAddr(func, dtype) == 0
    ensures dtype.Some? && dtype.value !in cg.funaddr ==> cg.GetCallerAddr(func, dtype) == INITIAL_FUNADDR
  {
  }

  /** The call sequence of the finale: the return address loaded into AC is
      the instruction right after the jump to main, the one that pops the
      frame; the jump lands on main's entry. */
  lemma FinaleCallReturnsAfterJump(p: int, g: int, mainEntry: int)
    ensures PcTarget(Finale(p, g, mainEntry)[2]) == Finale(p, g, mainEntry)[4].loc
    ensures Finale(p, g, mainEntry)[4].op == LD && Finale(p, g, mainEntry)[4].r == FP
    ensures PcTarget(Finale(p, g, mainEntry)[3]) == mainEntry && Finale(p, g, mainEntry)[3].r == PC
  {
  }
}
