# C- compiler back end: scoped symbol table, type checks and TM code emission

This project models the back end of a compiler for a small C-like language
(C-). The back end takes a parsed syntax tree and makes two passes over it.

- The **semantic analyzer** keeps a scoped symbol table. The table maps each
  name to a stack of entries, each entry a declaration with its nesting
  level. The analyzer checks declarations, uses, operators, calls and
  returns. It collects positioned error reports and writes a trace of the
  scopes it enters and leaves, listing every symbol it pops.
- The **code generator** emits instructions for the TM virtual machine. It
  has a write cursor and a high-water mark. Forward jumps are backpatched:
  a slot is reserved, the code after it is emitted, then the cursor goes
  back and writes the jump into the slot. An "absolute" register-memory
  instruction is rewritten into a displacement from the PC. Variables get
  offsets from a downward global allocator or from a frame-slot cursor.
  The generator also emits a fixed prelude, the `input`/`output` routines
  and a finale that calls `main`.

Modules:

- `Absyn` holds the tree: `NameTy` with its type codes, declarations,
  variables and expressions.
- `Errors` holds the reports and their messages.
- `SymbolTable` holds the table as a map from names to entry stacks. It
  specifies adding, removing and lookup as pure functions, with lemmas about
  them.
- `TypeRules` holds the operator tables, `getType`/`isType`, and the
  operator, argument and return checks.
- `Semantic` holds the `SemanticAnalyzer` class. Its fields are the table,
  the error log, the trace and an `aborted` flag.
- `CodeGen` holds the `CodeGenerator` class. Its fields are the emitted
  lines, the cursors, the allocators and the annotation maps.

Three results about the generator are proved:

- Backpatching is balanced. Every reserved slot is filled exactly once. The
  slot had never been written before, so the jump overwrites nothing.
- In the modelled walk, every function definition takes exactly three
  locations: the jump-around slot, the return-address store and the return.
  This holds because the modelled expression visits emit comments only; the
  source's unfinished `visit(CallExp)` stub, which is left out, would add its
  own instructions for each call in the body.
- Every call target starts with the return-address store. This holds for
  `input` at 4, `output` at 7, and any function whose definition was
  generated.

Results about the analyzer:

- Each visit's contract states the reports it adds: the operator rule
  (`OperatorReports`), the argument check (`CheckArguments` through
  `CallReported`), the return check (`ReturnReports`), the boolean test of
  `if` and `while`, the integer index, the assignment rule, the undeclared
  variable or function, and the void variable.
- When a block has no errors, its scope restores every symbol stack.
- Closing a scope pops once per declaration of the list, not once per entry
  the scope pushed. A declaration that was reported and not pushed (a
  redeclaration, or a `void` variable) therefore pops the enclosing
  declaration of its name. This is recorded under "Findings".

Other modelling choices:

- **Annotations.** The tree's mutable annotations are modelled differently.
  The analyzer's `dtype` is returned by each visit. The generator's
  `offset`, `nestLevel` and `funaddr` are maps keyed by the declaration
  value.
- **Program level.** The analyzer runs the program at level 1
  (`ROOT_LEVEL + 1`). The builtins sit at level 0.
- **Lists.** Declaration, parameter and expression lists are sequences. The model assumes the parser ends every list with a null tail, so `tail != null` (SemanticAnalyzer.java:351-352) means that another element follows. A list ending in a node with a null head would make the argument check behave differently; that case is not modelled.
- **Call order.** The generator is meant to run only after an error-free
  analysis, but the model does not link the two passes.

### Where the code departs from the design description

The model follows the code:

- **Global arrays.** An array takes `size` words in the globals, not
  `size + 1`.
- **Local slots.** There is one frame cursor, `fpOffset`. It starts at 0 and
  goes down by one per parameter or local, whatever the size. It is never
  reset between functions.
- **Function addresses.** The generator has no indirect global slot. A
  call's address comes from `getCallerAddr`:
  - it is the address recorded on the declaration node the analyzer
    resolved;
  - for a function first declared by a prototype, that node is the
    prototype, whose `funaddr` keeps `INITIAL_FUNADDR` (1);
  - with no declaration node, it is 0.
- **Missing code.** No code is emitted for `if`, `while`, operators,
  assignments or temporaries.
- **Backpatch balance.** The code never checks that backpatches are
  balanced. The model proves balance with a ghost stack of reserved slots,
  `pending`.

## Model

| member | source | states |
|---|---|---|
| Absyn.GetTypeString | absyn/NameTy.java:16-23 | each of BOOL, INT, VOID gets its upper-case name and no other code does; every other code gets "UNKNOWN" |
| Absyn.TypeCodesDistinct | absyn/NameTy.java:4-6 | the three type codes are distinct |
| Absyn.TypeStringOfValidCode | absyn/NameTy.java:10-23 | a NameTy built from a valid code keeps it, its name is not "UNKNOWN", and its name identifies the code among all NameTy values |
| SymbolTable.FirstConflict | SemanticAnalyzer.java:92-102 | a conflict is found iff some entry has the declaration's name, its level and its category (both variables or both functions), and the one returned is the first such entry of the stack |
| SymbolTable.Visible | SemanticAnalyzer.java:180-206 | true iff some entry of the stack has the name and a level not above the lookup level |
| SymbolTable.AddWithoutClashShadows | SemanticAnalyzer.java:104-128 | with no conflict the new entry goes in front of the name's stack (a fresh name gets a one-entry stack), becomes the front declaration and is declared at its level; no report, other names untouched |
| SymbolTable.AddWithClashKeepsFirst | SemanticAnalyzer.java:110-119 | with a conflict the table is unchanged and the first entry stays authoritative; exactly one report unless a prototype is being completed |
| SymbolTable.ClashOnlySameLevelAndCategory | SemanticAnalyzer.java:92-102 | a conflict exists iff an entry of the same level and category exists: other levels and the other category never conflict |
| SymbolTable.VariableAndFunctionCoexist | SemanticAnalyzer.java:95-96 | after adding a function, a variable of the same name at the same level conflicts exactly when it would have before |
| SymbolTable.PrototypeThenDefinition | SemanticAnalyzer.java:113-117 | a definition after its prototype at the same level leaves the table unchanged and reports nothing |
| SymbolTable.RemovePopsFront | SemanticAnalyzer.java:130-142 | removal pops the front entry of a non-empty stack and otherwise changes nothing; other names and the key set are untouched |
| SymbolTable.AddedKeysAndReports | SemanticAnalyzer.java:104-128 | adding makes the name a key, adds no other key, and reports at most once, always with a position |
| SymbolTable.MainStaysDeclared | SemanticAnalyzer.java:88-142 | once "main" is a key it stays one through adds and removals, and adding any "main" makes it one |
| SymbolTable.IsDeclaredMeansVisibleEntry | SemanticAnalyzer.java:180-206 | a name is declared at level L iff some entry of its stack has level at most L |
| SymbolTable.AddedWellFormed | SemanticAnalyzer.java:104-142 | adding and removing keep every entry filed under its own name |
| SymbolTable.StackAfterPushAll | SemanticAnalyzer.java:458-463 | pushing a declaration list adds one entry per occurrence of the name on top of the old stack, which stays below intact |
| SymbolTable.StackAfterRemoveAll | SemanticAnalyzer.java:208-228 | removing a declaration list drops one front entry per occurrence of the name |
| SymbolTable.ScopeRestores | SemanticAnalyzer.java:363-379 | when a block's declarations were all pushed, removing them at its end returns every stack to its state before the block |
| SymbolTable.RedeclarationInBlockPopsEnclosing | SemanticAnalyzer.java:363-379 | as written: a block declaring x twice inside a scope whose x is at level 2 makes one report and pushes one entry, yet its close pops twice, leaving x with no entry and undeclared at level 2; popping only the pushed names gives x its stack back |
| SymbolTable.VoidBlockVariablePopsEnclosing | SemanticAnalyzer.java:363-379 | as written: a void block variable x is reported and pushes nothing, yet the close pops the enclosing x, leaving it with no entry |
| SymbolTable.StackAfterRegisterAll | SemanticAnalyzer.java:458-463 | registering a declaration list puts exactly one entry per pushed occurrence of a name (registered and clashing with nothing) on top of its old stack, which stays intact below |
| SymbolTable.CorrectedCloseRestores | SemanticAnalyzer.java:363-379 | a close that pops once per entry actually pushed restores every stack, whatever was reported while registering |
| SymbolTable.ProgramScopeRestores | SemanticAnalyzer.java:29-33 | after the program is added and its declarations popped, a name with no entry before the program, or not declared by it, has its old stack |
| SymbolTable.LocalClashesWithParameter | SemanticAnalyzer.java:465-475 | a parameter is pushed at the level of its function's top-level locals, so a local named like a parameter meets a conflict |
| TypeRules.ArrContains | SemanticAnalyzer.java:264-271 | true iff the value occurs in the array |
| TypeRules.OperatorClassification | SemanticAnalyzer.java:273-302 | equality takes either type; arithmetic and relational take int; boolean operators take bool; arithmetic yields int; relational, equality and boolean operators yield bool; any other code yields -1 for both |
| TypeRules.DummyDec | SemanticAnalyzer.java:176-178 | a dummy declaration has exactly the given type, and isType holds of it |
| TypeRules.CallResultIsNeverAVariableType | SemanticAnalyzer.java:154-174 | isType is false of any function declaration, while getType gives its result type |
| TypeRules.OperatorReports | SemanticAnalyzer.java:397-421 | no report iff the operands fit; for == and != one report at the operator iff the two types differ; otherwise one report at each non-Nil operand whose type is not the operator's input type |
| TypeRules.ArgCheckUnique | SemanticAnalyzer.java:338-360 | the outcome of the argument check is determined by the two type lists: two outcomes that both fit them are equal |
| TypeRules.CheckArguments | SemanticAnalyzer.java:338-360 | arguments match iff the two type lists are equal; the arity report at the call is made iff exactly one list is empty; otherwise the single mismatch report is at the first position whose type differs or where one list ends first |
| TypeRules.CheckReturns | SemanticAnalyzer.java:478-491 | the loop over the body's statements yields exactly ReturnReports |
| TypeRules.ReturnReportsSound | SemanticAnalyzer.java:478-491 | every return report is at the expression of a direct return statement whose type differs from the result type |
| TypeRules.ReturnReportsComplete | SemanticAnalyzer.java:478-491 | every direct return statement whose type differs from the result type is reported |
| TypeRules.ReturnReportsOnlyDirect | SemanticAnalyzer.java:478-491 | a body with no direct return statement gets no return report, whatever returns are nested inside if or while |
| Semantic.Indent | SemanticAnalyzer.java:57-61 | four spaces per level, none for a level of zero or less |
| Semantic.Lower | SemanticAnalyzer.java:233-233 | the result has the same length and no upper-case letter; each ASCII upper-case letter becomes the letter 32 code points above it and every other character is kept |
| Semantic.TypeNameIsLowerTypeString | SemanticAnalyzer.java:253-261 | the type name in the trace is getTypeString lower-cased |
| Semantic.ParamListOneTypePerParam | SemanticAnalyzer.java:246-256 | a non-empty parameter list prints one type per parameter, joined by exactly one fewer ", " than parameters |
| Semantic.VarAddedSilentlyIsPushed | SemanticAnalyzer.java:104-128 | a variable added without a report is pushed in front of its stack |
| Semantic.RedeclaredBuiltinIsPopped | SemanticAnalyzer.java:29-33 | as written: when a program declares output as a prototype and then defines it, addSymbol makes no redeclaration report for either, yet the global close pops output twice and empties the builtin's stack, tracing both declarations |
| Semantic.SemanticAnalyzer.constructor | SemanticAnalyzer.java:63-78 | the table holds exactly input: () -> int and output: (int) -> void at level 0; no errors, empty trace |
| Semantic.SemanticAnalyzer.CheckDecConflict | SemanticAnalyzer.java:92-102 | the loop returns FirstConflict of the stack |
| Semantic.SemanticAnalyzer.AddSymbol | SemanticAnalyzer.java:104-128 | the table becomes Added and the log grows by AddReports, the trace unchanged |
| Semantic.SemanticAnalyzer.RemoveSymbol | SemanticAnalyzer.java:130-142 | the table becomes Removed; the result is true iff the name had a non-empty stack |
| Semantic.SemanticAnalyzer.AppendIndent | SemanticAnalyzer.java:57-61 | the loop appends exactly Indent(level) |
| Semantic.SemanticAnalyzer.DisplayDec | SemanticAnalyzer.java:230-241 | appends the declaration's trace line: "name: type" with "[]" for arrays, or the function line |
| Semantic.SemanticAnalyzer.DisplayFunctionDec | SemanticAnalyzer.java:243-262 | appends "f: (params) -> result" and a newline |
| Semantic.SemanticAnalyzer.DisplayParams | SemanticAnalyzer.java:246-259 | appends "void" for no parameters, else the comma-joined parameter types |
| Semantic.SemanticAnalyzer.RemoveDecListSymbols | SemanticAnalyzer.java:208-228 | the table becomes RemoveAll of the names and the trace gains one indented line per symbol actually popped, in list order |
| Semantic.SemanticAnalyzer.VisitVarDec | SemanticAnalyzer.java:501-515 | a void variable is reported and not added; any other is added by AddSymbol |
| Semantic.SemanticAnalyzer.VisitVarDecs | SemanticAnalyzer.java:458-463 | the table becomes RegisterAll of the list and the log grows by exactly RegisterReports (the void-variable report or addSymbol's report, declaration by declaration); with no new report the table is PushAll of the list |
| Semantic.SemanticAnalyzer.VisitExps | SemanticAnalyzer.java:444-449 | statements whose type does not read the table resolve as ResolvedType says; with no new report every stack is unchanged and every statement resolves; quiet statements change nothing |
| Semantic.SemanticAnalyzer.VisitCompoundExp | SemanticAnalyzer.java:363-379 | the trace is the block-entry line, the body, one line per symbol popped and the leave line (no block lines at level 1); the table is the scope minus one pop per declaration; with no new report every stack is restored and the statements resolve in the table with the declarations pushed at level + 1 |
| Semantic.SemanticAnalyzer.AppendBlockLine | SemanticAnalyzer.java:364-367 | appends the indented block line except at level 1, changing nothing else |
| Semantic.SemanticAnalyzer.VisitBlockScope | SemanticAnalyzer.java:369-371 | declarations pushed at level + 1, statements visited there, then the declarations popped with their trace; with no new report every stack is restored |
| Semantic.SemanticAnalyzer.VisitVar | SemanticAnalyzer.java:307-315 | a simple variable changes nothing; an indexed one ends the log with the integer-index report at the index iff the index's type is not an int variable type; with no new report stacks are unchanged |
| Semantic.SemanticAnalyzer.VisitVarExp | SemanticAnalyzer.java:428-434 | the dtype is the front declaration of the name; the log ends with the undeclared-variable report at the variable iff the name is not declared at the level |
| Semantic.SemanticAnalyzer.VisitCallExp | SemanticAnalyzer.java:330-361 | after the arguments, the dtype is the callee's front declaration, a function; the log gains the undeclared-function report iff the callee is not declared, then the argument check's report, whose outcome fits the argument and parameter types; with quiet arguments the visit aborts iff the callee's front entry is a variable |
| Semantic.SemanticAnalyzer.CheckCallee | SemanticAnalyzer.java:332-360 | aborts iff the callee's front entry is a variable; otherwise the reports are those CallReported gives; the table and trace are unchanged |
| Semantic.SemanticAnalyzer.VisitOpExp | SemanticAnalyzer.java:397-421 | the dtype is the dummy of the operator's output type; the log gains OperatorReports |
| Semantic.SemanticAnalyzer.VisitAssignExp | SemanticAnalyzer.java:317-324 | the log ends with the assignment report at the assignment iff the two sides' types differ; the dtype is the left side's resolved type when it does not read the table or nothing was reported before |
| Semantic.SemanticAnalyzer.VisitIfExp | SemanticAnalyzer.java:381-388 | the log ends with the boolean-test report at the test iff the test's type is not a bool variable type; with no new report stacks are unchanged |
| Semantic.SemanticAnalyzer.VisitWhileExp | SemanticAnalyzer.java:436-442 | the log ends with the boolean-test report at the test iff the test's type is not a bool variable type; with no new report stacks are unchanged |
| Semantic.SemanticAnalyzer.VisitExp | SemanticAnalyzer.java:304-442 | with no new report, or for an expression read last, the dtype is ResolvedType in the final table: int and bool dummies for literals, the operator's output type, the front declaration for variables and calls, none for nil, if, while and blocks; quiet expressions change nothing |
| Semantic.SemanticAnalyzer.VisitFunctionDec | SemanticAnalyzer.java:465-499 | the name is in the table afterwards; a prototype is only added (table Added, log plus AddReports, trace unchanged); with no new report the stacks end as after Added |
| Semantic.SemanticAnalyzer.VisitFunctionScope | SemanticAnalyzer.java:470-498 | the trace is the indented entry line for the function, the parameters' and body's trace and the indented leave line; with no new report every stack is as before |
| Semantic.SemanticAnalyzer.AppendTraceLine | SemanticAnalyzer.java:57-61 | appends the indentation of the level and the line, changing nothing else |
| Semantic.SemanticAnalyzer.VisitParamsAndBody | SemanticAnalyzer.java:474-492 | the parameters are pushed at level + 1 and popped with their trace after the body; the log is the body's log plus exactly ReturnReports; with no new report every stack is restored and the body's statements resolve with parameters and locals pushed at level + 1 |
| Semantic.SemanticAnalyzer.VisitFunctionBody | SemanticAnalyzer.java:475-491 | the log is the body's log followed by exactly ReturnReports of its direct statements; with no new report every stack is unchanged and the statements resolve with the locals pushed at level + 1 |
| Semantic.SemanticAnalyzer.VisitDec | SemanticAnalyzer.java:465-515 | a function or a non-void variable has its name in the table afterwards; with no new report the stacks are those of adding the declaration |
| Semantic.SemanticAnalyzer.VisitDecs | SemanticAnalyzer.java:451-456 | every function and non-void variable of the list has its name in the table afterwards; with no new report the stacks are those of adding them all in order |
| Semantic.SemanticAnalyzer.Analyze | SemanticAnalyzer.java:29-37 | the old reports are kept; "Main function is not declared" is added iff main is not in the table, so never for a program that defines main; the trace is the global entry line, the walk, one line per popped symbol and the leave line; without other reports every name that had no entry or that the program does not declare gets its stack back |
| CodeGen.Encode | CodeGenerator.java:135-149 | emit writes one instruction at the given location with the given opcode, register and note; it is register-only iff the type is RO |
| CodeGen.AbsoluteAddressing | CodeGenerator.java:139-140 | an absolute instruction is based on the PC with displacement target - (loc + 1), so it resolves to its target; a relative one keeps its displacement and base |
| CodeGen.Image | CodeGenerator.java:135-149 | the loaded program holds at each location an instruction tagged with that location |
| CodeGen.ImageDomain | CodeGenerator.java:135-149 | a location is loaded iff some instruction line was written for it |
| CodeGen.ImageIgnoresComments | CodeGenerator.java:131-133 | comment lines never change the loaded program |
| CodeGen.GlobalBlocksDisjoint | CodeGenerator.java:151-161 | with positive sizes, a later global's block lies wholly below an earlier one's |
| CodeGen.OffsetsLastOccurrence | CodeGenerator.java:151-161 | a declaration's recorded offset is the slot of its last occurrence in the list |
| CodeGen.OffsetsOutside | CodeGenerator.java:151-161 | allocating a list leaves the offsets of declarations outside it unchanged |
| CodeGen.NestLevelsOfList | CodeGenerator.java:152-152 | every declaration of the list records the level it was visited at |
| CodeGen.SlotsDistinct | CodeGenerator.java:151-161 | different positions of a list get strictly decreasing offsets: one-slot locals, and size-separated globals when sizes are positive |
| CodeGen.CallTargetsStoreReturn | CodeGenerator.java:163-174 | the address of input, of output, or of a callee whose definition was generated holds the routine entry ST AC,-1(FP) |
| CodeGen.UnassignedCallTargets | CodeGenerator.java:163-174 | a call with no resolved declaration goes to 0; one whose declaration node never got an address goes to INITIAL_FUNADDR |
| CodeGen.FinaleCallReturnsAfterJump | CodeGenerator.java:89-96 | the return address loaded before the jump to main is the frame-popping instruction after the jump, and the jump lands on mainEntry |
| CodeGen.CodeGenerator.constructor | CodeGenerator.java:13-29 | no lines, both cursors at 0, all allocators and addresses 0, no annotations |
| CodeGen.CodeGenerator.Emit | CodeGenerator.java:135-149 | one Encode line at the cursor; the cursor advances by one and the high-water mark rises to it if passed; from a resting state the loaded program only gains that location |
| CodeGen.CodeGenerator.EmitRO | CodeGenerator.java:99-101 | one register-only instruction at the cursor |
| CodeGen.CodeGenerator.EmitRM | CodeGenerator.java:103-105 | one register-memory instruction with the displacement and base as given |
| CodeGen.CodeGenerator.EmitRMAbs | CodeGenerator.java:107-109 | one PC-based instruction that resolves to the absolute target |
| CodeGen.CodeGenerator.EmitSkip | CodeGenerator.java:111-118 | returns the old cursor, advances it by the distance and raises the high-water mark if passed |
| CodeGen.CodeGenerator.EmitBackup | CodeGenerator.java:120-125 | the cursor moves to the location; a location past the high-water mark adds the "BUG in emitBackup!!" comment, any other adds nothing |
| CodeGen.CodeGenerator.EmitRestore | CodeGenerator.java:127-129 | the cursor returns to the high-water mark |
| CodeGen.CodeGenerator.EmitComment | CodeGenerator.java:131-133 | one comment line; the loaded program is unchanged |
| CodeGen.CodeGenerator.BeginBackpatch | CodeGenerator.java:62-64 | reserves the slot at the cursor and records it as pending |
| CodeGen.CodeGenerator.EndBackpatch | CodeGenerator.java:65-68 | writes into the innermost pending slot a jump that resolves to the end of the code, a slot never written before, and leaves the cursor at the high-water mark |
| CodeGen.CodeGenerator.AllocateVar | CodeGenerator.java:151-161 | level 0: offset is the global offset, which goes down by the size; other levels: offset is the frame cursor, which goes down by one; the level is recorded and one comment emitted |
| CodeGen.CodeGenerator.VisitVarDec | CodeGenerator.java:296-302 | allocates an array by its size and a scalar as one word |
| CodeGen.CodeGenerator.VisitVarDecs | CodeGenerator.java:263-268 | globals go down by the list's total size, locals by its length; the offsets and levels are those of Offsets and NestLevels |
| CodeGen.CodeGenerator.VisitExp | CodeGenerator.java:176-247 | the walk emits comments only and no instruction; the frame cursor goes down by the number of block declarations inside; the globals are untouched |
| CodeGen.CodeGenerator.VisitExps | CodeGenerator.java:249-254 | the same, summed over the list |
| CodeGen.CodeGenerator.VisitFunctionDec | CodeGenerator.java:270-294 | a prototype changes nothing; a definition is generated as VisitFunctionDef states |
| CodeGen.CodeGenerator.VisitFunctionDef | CodeGenerator.java:273-292 | funaddr and, for main, mainEntry become the location after the slot; exactly three locations are loaded: the jump over the function at the slot, ST AC,-1(FP), LD PC,-1(FP) |
| CodeGen.CodeGenerator.EnterFunction | CodeGenerator.java:274-279 | funaddr of the function and, for main, mainEntry become the location after the cursor; only a comment is emitted, so the loaded program and cursors are unchanged |
| CodeGen.CodeGenerator.VisitFunctionJumpedOver | CodeGenerator.java:281-292 | a backpatch around the function's code: its slot jumps to the location after the return |
| CodeGen.CodeGenerator.VisitFunctionCode | CodeGenerator.java:284-291 | the return-address store, then parameters at level + 1 and body, which load nothing, then the return |
| CodeGen.CodeGenerator.VisitDec | CodeGenerator.java:296-302 | keeps every loaded location, keeps every recorded entry and main's entry starting a routine, and lowers the global offset by a global variable's size |
| CodeGen.CodeGenerator.VisitDecs | CodeGenerator.java:256-261 | the same over the program; the global offset goes down by the total size of the global variables |
| CodeGen.CodeGenerator.GetCallerAddr | CodeGenerator.java:163-174 | input and output resolve by name to their routines |
| CodeGen.CodeGenerator.GeneratePrelude | CodeGenerator.java:55-60 | the comment and LD GP,0(AC); LDA FP,0(GP); ST AC,0(AC) at the next three locations |
| CodeGen.CodeGenerator.GenerateIORoutines | CodeGenerator.java:71-87 | input starts one past the slot and output three further on; both start routines; the slot jumps past both |
| CodeGen.CodeGenerator.EmitInputRoutine | CodeGenerator.java:74-78 | ST, IN, return, with inputLoc at the store |
| CodeGen.CodeGenerator.EmitOutputRoutine | CodeGenerator.java:80-85 | ST, load of the argument at -2(FP), OUT, return, with outputLoc at the store |
| CodeGen.CodeGenerator.GenerateFinale | CodeGenerator.java:89-96 | the six finale instructions with the current global offset and mainEntry; everything loaded before is kept |
| CodeGen.CodeGenerator.GenerateHeader | CodeGenerator.java:32-33 | input at 4, output at 7, location 3 jumping to 11, the cursor at 11 |
| CodeGen.CodeGenerator.Generate | CodeGenerator.java:31-41 | input at 4 and output at 7 behind the jump at 3 to 11; the global offset ends at minus the globals' total size; every call target and main's entry start a routine; the text ends with the finale |

## Left out

- Writing files and printing to standard output and standard error are not modelled (`writeFile`, `reportError`, the messages in `generate` and `analyze`). Reports are values in a log; the emitted text is a sequence of lines.
- Text formatting is not modelled: the `String.format` padding of instruction lines and the 1-based line and column in printed errors.
- `CM.java`, `Main.java` and `ShowTreeVisitor.java` are the driver and the tree printer, and are not part of this model.
- The `accept` and visitor plumbing of the tree classes is modelled as pattern matching.
- `VarDec.java`, `OpCode.java` and the other tree files not named here are not part of this model; their fields appear as datatype fields.
- Code generation for calls (`visit(CallExp)`, CodeGenerator.java:194-212) is an unfinished stub in the source. It is left out: its instructions and its reset of `fpOffset` to -1 are not modelled. The walk still descends into the arguments.
- CodeGen.CodeGenerator.VisitExp: its contract (comments only, frame cursor down by the block declarations) holds for the modelled walk, which leaves out the call stub's instructions and its `fpOffset` reset.
- CodeGen.CodeGenerator.GetCallerAddr: its contract states only the resolution by name; the address of a resolved declaration is stated through CallTargetsStoreReturn and UnassignedCallTargets.
- Node annotations are maps keyed by the declaration value, not by object identity. Two identical declarations share an entry.
- The builtin `output` has a null body in the source. The model gives it an empty block. The only test made on that body is that it is not a NilExp, and an empty block gives the same answer.
- A call to a name whose front entry is a variable throws a ClassCastException in the source (SemanticAnalyzer.java:340). The model sets `aborted` instead, and every later visit returns at once.
- Semantic.SemanticAnalyzer.VisitCallExp: states why the analysis aborted only when every argument is quiet, because otherwise the abort can come from an argument as well as from the callee itself.
- Semantic.SemanticAnalyzer.VisitExp: states the dtype of an assignment or a return through ResolvedType only when the visit made no report. The dtype is read before the right side's visit, and a reported block inside that visit may pop an entry (see Findings), so the final table need not give it back.
- The analyzer class keeps the scope close as written (one pop per declaration). The corrected close of the Findings table is proved as a function-level result, CorrectedCloseRestores, and the class does not use it.

## Findings

| source | as written | input that shows it | evidently intended | confidence | as-written member | corrected member |
|---|---|---|---|---|---|---|
| SemanticAnalyzer.java:208-228 | closing a scope pops the name of every declaration of the list, including declarations that were reported and never pushed (a redeclaration, a void variable) | `void main(void){ int x; { int x; int x; } x = 1; }`: the inner close pops twice, the outer x is gone and `x = 1` is reported as used before declaration | pop only the entries the scope pushed, so every stack is as before the scope | not executed | SymbolTable.RedeclarationInBlockPopsEnclosing | SymbolTable.CorrectedCloseRestores |
| SemanticAnalyzer.java:29-33 | the global close pops once per declaration of the program, so a completed prototype of a builtin pops the builtin itself | `void output(void); void output(void){ } void main(void){ }`: addSymbol makes no redeclaration report and main is declared, yet after the analysis `output` has no entry left | pop only the entries the program pushed, so the builtins keep their level-0 entries | not executed | Semantic.RedeclaredBuiltinIsPopped | SymbolTable.CorrectedCloseRestores |
