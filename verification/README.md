# Verified model of the xb-compiler core

The repository is a BASIC compiler written in Rust. It has a typed intermediate representation (IR), a text
form of the IR with its own reader, whole-program analyses that choose storage and calling convention, and a
generator of C with a C runtime. This project models the parts of it whose correctness spans many steps or
several functions, and proves what they are meant to do. `dafny verify dfyconfig.toml` checks everything.

| Files | What they model |
|---|---|
| `Ir`, `Results`, `Text` | the IR, results that may fail, and the string helpers of the Rust library |
| `TextScan`, `TextIr`, `TextRoundTrip`, `TextTypes` | printing expressions and reading them back, and which types that keeps |
| `PrintList`, `PrintPlain` | the same for PRINT lists |
| `FlatItems` | the items of a body at any depth, and what the recursive walks over bodies mean for that list |
| `CallEdges`, `CollectEdges`, `Descriptors`, `HiddenEdges`, `CallSites` | which array parameters travel as an address and a bound, and which calls that analysis does not see |
| `AttachGroups` | alias groups of whole-array ATTACH |
| `Labels` | making labels distinct by flattening the tree and rebuilding it by index |
| `DynNames`, `TraceItems`, `WalkItems`, `MissedUses` | which names may keep an in-place C declaration: the walk, the items its events come from, and the uses it misses |
| `ArrayStore`, `ArrayExprs` | the C storage of dynamic arrays as a machine over a heap of blocks, and the expressions that look at it while a statement changes it |
| `FloatPrint`, `FloatText`, `FloatBuffer`, `ReadBack` | shortest decimal printing of doubles |
| `QuickSort`, `SortedValues` | the stable indexed sort, and its order in terms of the values |
| `ByteStrings` | byte strings with a length and a capacity, and what appending costs |
| `AppendChain` | the rewrite of `t = t + a + b` into nested in-place appends |
| `GosubStack` | the GOSUB stack that all activations share |
| `FlatArrays` | row-major flattening of subscripts, with the sizes of the DIM and those of the access |
| `IntEmit`, `BitLaws` | 32-bit wrapping integers in emitted C, and the laws of their operators |

Code that works step by step in the original, including the C it emits, is a method or a class here, proved
against a function or a predicate; recursion that only computes is a function. The results then say what
those functions mean: round trips, refinement of a plain meaning, invariants of every run, and independent
descriptions of what an analysis decides.

Some promises of the code hold only under a condition. Each such result states the condition exactly, for all
inputs, or gives the condition together with a theorem that shows what happens without it:

- Text IR: a string with a character printed as `\u{..}`, and the size of the 64-bit type, do not read back
  (`RoundTripExactly`); a PRINT list whose strings leave a parenthesis open does not either (`PrintRoundTrip`).
- Types in the text IR: the reader infers types afresh. It gives an operation the compiler's type exactly under the
  condition of `ArithAgreesExactly`: a 64-bit operand without a float beside it is lost (`GiantLost`), and a
  shifted float reads back as a float (`ShiftReadsFloat`). A 64-bit literal is lost as well. For calls the
  condition is that of `CallAgreesExactly`: `DOUBLE(n)` (`DoubleLost`) and a function of the program with a
  string result (`StringFunctionLost`) come back as integers.
- Labels: a label that already has a generated name can clash with it (`DistinctExactly`). A GOSUB to a
  duplicated name is not redirected; only jumps are.
- Append chains: the alias guard does not see `UBOUND(t$)`, which is the length of `t$` less one
  (`AppendsAreSum`, `MeasuringPartsMatter`). `t$ = t$ + "x" + CHR$(65, UBOUND(t$))` is such a statement
  (`UBoundAppended`).
- GOSUB: a function left by anything but a plain RETURN inside a GOSUB leaves its return point to its caller
  (`LeakShows`), and a GOSUB on a full stack forgets where it came from (`FullStackShows`). These are the only
  steps that ever show (`UnseenExactly`).
- Growing writes: the guard of `a[index] = value` moves the bound, and index and value are evaluated again
  after it. The result is the promised one exactly if both survive the growth (`WrittenExactly`), for which it
  is enough that neither looks at `a` as a whole and their reads of `a` are inside the bound, as in
  `a[i] = a[i - 1] + 1` (`UnshownKept`, `StepUpKept`). `a[UBOUND(a[]) + 1] = v` stores outside the block (`NextSlotOverruns`).
- ATTACH: the interpreter rejects a destination that is not empty, and the code overwrites it. For a row, the code
  evaluates the row number again at each assignment. The row moves on every heap exactly if the row that is
  cleared is the one that was read and the bound fits it (`TakenExactly`, `PutExactly`), for which it is enough
  that the number looks neither at the array nor at that row (`SteadyTaken`, `SteadyPut`).
  `ATTACH t[UBOUND(a[]) + 1,] TO a[]` leaves `a` and a row of `t` with the same block (`NextRowTorn`).
- In-place declarations: operands of ATTACH and sizes of further dimensions are not walked, so a declaration can
  come after such a use, and only after such a use (`DeclaredBeforeUse`). A use that is walked makes the array
  dynamic, as in `a[0] = 7` before `DIM a[5]` (`WrittenFirst`).
- Multi-dimensional subscripts: the code evaluates the dimension texts of the last DIM at every access, while
  the interpreter keeps the sizes of the DIM that ran. The offsets agree exactly if no inner size differs
  (`AccessExactly`, `SizeChanged`); where the shape is not known, exactly if all inner sizes are zero
  (`FirstAlone`).
- Integers: the comment at `crates/xb-compiler/src/c_emit_expr.rs:216-225` says that everything is computed in
  64 bits. In C an operation on two operands that are themselves casts, literals or tests is computed in 32
  bits, and its overflow is undefined (`NarrowExactly`).
- Multi-dimensional REDIM: the comment at `crates/xb-compiler/src/c_emit_stmt.rs:172-185` promises a
  default-filled tail and that the old bound is captured first. The code captures it after the assignment, so
  a grown tail is never filled (`RedimFlatPromise`).
- Descriptors: the comment at `crates/xb-compiler/src/c_emit_hoist.rs:1803-1807` counts UBOUND and SIZE as
  reasons for a descriptor. The code does not, and the model follows the code. Calls inside a Compound, to
  which `SELECT CASE TRUE` and its like are reduced, are not looked at, nor are some subscripts and computed
  addresses. The analysis sees every call exactly if those hold no whole-array argument (`AllCollected`), and
  finds every descriptor exactly under the condition of `CollectionSuffices`.
- Sorting: a negative lower bound is not checked (`QuickSort.Sort` says exactly when the sort stays inside).

What the code takes from outside is a parameter: the table of characters that Rust's debug quoting leaves
alone, the return types of library functions, the decimal expansion of a double and whether a candidate reads
back as it, the address and the success of every allocation, the values of variables and literals, and the
text of an appended part as a function of what the target shows. Hash-map iteration order is an arbitrary
choice.

## Model

| member | source | states |
|---|---|---|
| `TextScan.ExtractParensLoop` | crates/xb-compiler/src/text_ir_parser_helpers.rs:5-32 | the quote-aware loop returns the content of the group and the text after it; it fails when the group never closes |
| `TextScan.ExtractNeutral` | crates/xb-compiler/src/text_ir_parser_helpers.rs:5-32 | for every neutral text `w`, the group read from `w + ")" + rest` is exactly `w`, and what remains is exactly `rest` |
| `TextScan.ExtractCut` | crates/xb-compiler/src/text_ir_parser_helpers.rs:5-32 | a neutral text cut off before its closing parenthesis is rejected |
| `TextScan.DebugNeutral` | crates/xb-compiler/src/text_ir_parser_helpers.rs:5-32 | every quoted string, whatever parentheses, quotes and backslashes it holds, is neutral to the scanner |
| `TextScan.UnescapeLoop` | crates/xb-compiler/src/text_ir_parser_helpers.rs:106-131 | the character loop of the string reader undoes the escapes it knows and passes the rest through |
| `TextScan.StringRoundTrip` | crates/xb-compiler/src/text_ir_parser_helpers.rs:106-131 | a quoted string reads back as itself if and only if no character needs a `\u{..}` escape, and otherwise as the stated different string |
| `TextScan.HexIs` | crates/xb-compiler/src/text_ir_expr.rs:7-20 | a code printed as `\u{..}` is in hexadecimal digits with small letters and without a leading zero |
| `TextIr.TextIrReader.ParseArgsLoop` | crates/xb-compiler/src/text_ir_parser_expr.rs:310-328 | the argument loop yields the arguments in order, or fails as soon as one of them fails |
| `TextRoundTrip.EmitNeutral` | crates/xb-compiler/src/text_ir_expr.rs:7-108 | every printed expression whose names are lexemes is neutral to the parenthesis scanner |
| `TextRoundTrip.ParseEmitted` | crates/xb-compiler/src/text_ir_parser_expr.rs:9-308 | for every tree whose names are lexemes, what reading its printed text gives: an error exactly when it holds the size of GIANT, else the tree with strings as re-read and types as the reader infers them; which of these are the compiler's is `ReadsBackTyped` |
| `TextRoundTrip.RoundTripExactly` | crates/xb-compiler/src/text_ir_parser_expr.rs:9-308 | reading the printed text gives the canonically typed tree if and only if there is no size of GIANT and no string needs a `\u{..}` escape |
| `TextRoundTrip.CanonFixed` | crates/xb-compiler/src/text_ir_parser_helpers.rs:133-145 | retyping is the identity exactly on canonically typed trees, and its result is always canonically typed; which of the compiler's trees are such is `CanonicalExactly` |
| `TextRoundTrip.PrintCanon` | crates/xb-compiler/src/text_ir_expr.rs:7-108 | the printed text does not depend on the inferred types |
| `TextRoundTrip.RoundTripIdentity` | crates/xb-compiler/src/text_ir_expr.rs:7-108 | printing what was read gives the same text again, and reading is the identity exactly on canonically typed trees |
| `TextTypes.ArithAgreesExactly` | crates/xb-compiler/src/semantics_expr.rs:168-216 | the reader gives an operation the type that the compiler gives it if and only if it adds two strings, or it has no string operand, no 64-bit operand without a float beside it, and shifts no float; with strings taken for numbers, if and only if it does not add and has no float that is not divided away |
| `TextTypes.GiantLost` | crates/xb-compiler/src/semantics_expr.rs:168-216 | a 64-bit number plus a 32-bit one is 64 bits wide for the compiler and 32 for the reader |
| `TextTypes.ShiftReadsFloat` | crates/xb-compiler/src/semantics_expr.rs:168-216 | a shifted float is an integer for the compiler and a float for the reader |
| `TextTypes.MixedSum` | crates/xb-compiler/src/text_ir_parser_helpers.rs:133-145 | a float plus an integer is a float on both sides |
| `TextTypes.CanonicalExactly` | crates/xb-compiler/src/semantics_expr.rs:168-216 | a tree of literals, names, array elements and operators that the compiler has typed is typed as the reader types it if and only if no part is a 64-bit literal, an operation that loses its type, or NEG of a string |
| `TextTypes.ReadsBackTyped` | crates/xb-compiler/src/text_ir_parser_expr.rs:40-308 | such a tree reads back as itself from its text if and only if no part loses its type |
| `TextTypes.CallAgreesExactly` | crates/xb-compiler/src/text_ir_parser_expr.rs:24-38 | the reader gives a call the type that the compiler gives it, as a conversion, a library routine, a function of the program or an unknown name, exactly under the stated condition on the name and the library table |
| `TextTypes.DoubleLost` | crates/xb-compiler/src/text_ir_parser_expr.rs:24-38 | a conversion to DOUBLE reads back as an integer when the table does not list it |
| `TextTypes.StringFunctionLost` | crates/xb-compiler/src/text_ir_parser_expr.rs:24-38 | a call of the program's own string function reads back as an integer |
| `PrintList.ParsePrintItemsLoop` | crates/xb-compiler/src/text_ir_parser_select.rs:50-78 | the byte loop with its depth and start cursors splits at separators of raw depth zero |
| `PrintList.PrintRoundTrip` | crates/xb-compiler/src/text_ir_parser_select.rs:50-78 | a printed PRINT list gives back its items and separators if and only if it can be split at raw depth zero, and otherwise is rejected |
| `PrintList.UnmatchedParenthesis` | crates/xb-compiler/src/text_ir_parser_select.rs:50-78 | one string holding a single parenthesis spoils the list it is in |
| `PrintList.RawDepthCounts` | crates/xb-compiler/src/text_ir_parser_select.rs:50-78 | the raw depth is the number of opening parentheses less that of closing ones, quoted or not |
| `PrintPlain.PlainSplittable` | crates/xb-compiler/src/text_ir.rs:591-606 | a list whose strings hold no parentheses can always be split |
| `PrintPlain.PlainRoundTrip` | crates/xb-compiler/src/text_ir.rs:591-606 | such a list reads back as exactly the printed items and separators |
| `CollectEdges.CollectBody` | crates/xb-compiler/src/c_emit_hoist.rs:1639-1801 | the recursive collector appends the body's by-reference call edges in collection order, and looks into no Compound |
| `CollectEdges.CollectResized` | crates/xb-compiler/src/c_emit_hoist.rs:958-994 | the collector adds the names that a REDIM or a DIM with a size resizes, Compounds included; `ResizedAre` says which these are |
| `FlatItems.ResizedAre` | crates/xb-compiler/src/c_emit_hoist.rs:958-994 | a name is collected if and only if some item of the body, at any depth, is a REDIM of it or a DIM of it with a size |
| `FlatItems.Flattened` | crates/xb-compiler/src/c_emit_hoist.rs:663-692 | the items at any depth are those of the body and those of the bodies, then and else, of a loop, of a case or of a Compound, of such items |
| `FlatItems.FlattenedShallow` | crates/xb-compiler/src/c_emit_hoist.rs:1692-1800 | the items the edge collector visits are those of the body and those of the bodies of such items, Compounds excepted |
| `FlatItems.EmissionOrder` | crates/xb-compiler/src/c_emit_hoist.rs:663-692 | in emission order an item comes first, then what its bodies hold in the order of the text, then what follows it |
| `FlatItems.GosubExactly` | crates/xb-compiler/src/c_emit_hoist.rs:1545-1563 | a body uses GOSUB if and only if some item at any depth is a GOSUB, a computed one, or its RETURN |
| `HiddenEdges.BodyEdgesAre` | crates/xb-compiler/src/c_emit_hoist.rs:1639-1801 | an edge is collected if and only if an item outside every Compound has it as an argument of its call, or of a call at any depth of an expression the collector looks at; the edges there are, if and only if any item has it |
| `HiddenEdges.EdgeArguments` | crates/xb-compiler/src/c_emit_hoist.rs:1639-1801 | an edge is collected if and only if a call that is seen has it as an argument |
| `HiddenEdges.ExprEdgesAre` | crates/xb-compiler/src/c_emit_hoist.rs:1655-1691 | the edges of an expression are the whole-array arguments of the calls that occur in it |
| `HiddenEdges.ArgumentIs` | crates/xb-compiler/src/c_emit_hoist.rs:1614-1628 | an edge is an argument of a call if and only if the call names its callee and has its array, as a symbol or SHARED, marked by reference or not, at its position |
| `HiddenEdges.OccursInParts` | crates/xb-compiler/src/c_emit_hoist.rs:1655-1691 | what occurs in an expression is the expression itself or occurs in one of its operands, arguments or subscripts |
| `HiddenEdges.LookedAre` | crates/xb-compiler/src/c_emit_hoist.rs:1692-1800 | which expressions of each kind of item are looked at, and which are not: sizes of further dimensions, subscripts of ATTACH, computed addresses |
| `HiddenEdges.AllCollected` | crates/xb-compiler/src/c_emit_hoist.rs:1692-1800 | the collected edges are all edges if and only if no Compound at any depth and no expression that is not looked at holds a call with a whole-array argument; every collected edge is an edge |
| `Descriptors.CollectFunctions` | crates/xb-compiler/src/c_emit_hoist.rs:1817-1876 | one scan yields the first function of each name, its parameters, and the array parameters that some item at any depth resizes or some call that is seen hands, whole, to one of the first two places of `XstQuickSort` or `XstCopyArray` |
| `Descriptors.FunctionsAre` | crates/xb-compiler/src/c_emit_hoist.rs:1817-1876 | the functions are the function items of the program, of each name the first |
| `Descriptors.SeedExactly` | crates/xb-compiler/src/c_emit_hoist.rs:1845-1876 | a parameter is a seed if and only if it is declared as an array and some item at any depth resizes it or some call that is seen hands it whole to one of the two library routines |
| `Descriptors.Visit` | crates/xb-compiler/src/c_emit_hoist.rs:1883-1905 | one edge records its symbol when, and only when, its target is a descriptor position, and nothing else moves |
| `Descriptors.VisitFunction` | crates/xb-compiler/src/c_emit_hoist.rs:1882-1905 | one function's edges keep every recorded descriptor justified; a pass without change leaves the function closed and its dynamic locals final |
| `Descriptors.Pass` | crates/xb-compiler/src/c_emit_hoist.rs:1880-1910 | one round over all functions never adds an unjustified entry; a round with a change strictly shrinks the set of edges without effect, one without leaves a closed table |
| `Descriptors.ClosedIsComplete` | crates/xb-compiler/src/c_emit_hoist.rs:1880-1910 | a closed table that holds the seeds holds every parameter from which a chain of forwards leads to a seed |
| `Descriptors.Fixpoint` | crates/xb-compiler/src/c_emit_hoist.rs:1880-1910 | a sound and closed table holds a parameter if and only if a finite chain of forwards reaches a resize |
| `Descriptors.CollectDescriptorParams` | crates/xb-compiler/src/c_emit_hoist.rs:1809-1923 | the loop terminates; a parameter is a descriptor if and only if a finite chain of by-reference forwards reaches a resize or a library position, and the dynamic locals with their types follow from that alone; an array parameter that an item at any depth resizes, or that a call hands to such a position, is one |
| `Descriptors.OrderIrrelevant` | crates/xb-compiler/src/c_emit_hoist.rs:1809-1923 | reaching a resize does not depend on the order of the functions |
| `Descriptors.LocalsKeys` | crates/xb-compiler/src/c_emit_hoist.rs:1897-1904 | a name is a dynamic local if and only if it is no array parameter and is passed to a position from which a resize can be reached |
| `Descriptors.LocalsTypes` | crates/xb-compiler/src/c_emit_hoist.rs:1897-1904 | the type of a dynamic local is that of the last edge that passes it to such a position |
| `CallSites.Agreement` | crates/xb-compiler/src/c_emit_expr.rs:884-912 | at a collected edge to a descriptor position, a marked symbol is passed as the caller's own descriptor if and only if it is an array parameter, which then is a descriptor; otherwise the addresses of its cells are passed, and the caller has these cells if and only if the symbol is no parameter declared without brackets |
| `CallSites.EdgeForms` | crates/xb-compiler/src/c_emit_expr.rs:884-1032 | at a descriptor position of a call that the collector sees, a whole array is a collected edge, and the callee gets the two C arguments it takes if and only if that array is a marked symbol, or unmarked and copied, which are cells of that array; anything else gives it one argument |
| `CallSites.CollectedFunctions` | crates/xb-compiler/src/c_emit_hoist.rs:1817-1876 | the collected functions have perhaps fewer edges than there are, and in a program that hides no call they are the same, so that all results about the analysis speak of all calls |
| `CallSites.AgreementEverywhere` | crates/xb-compiler/src/c_emit_expr.rs:884-912 | in a program that hides no call, callers and callees agree at every call there is |
| `CallSites.OneStep` | crates/xb-compiler/src/c_emit_hoist.rs:1880-1910 | a parameter is a descriptor if and only if it is an array parameter that is resized in its function or passed on by one of its edges to a library position or a descriptor |
| `CallSites.DescriptorsAre` | crates/xb-compiler/src/c_emit_hoist.rs:1809-1923 | a parameter of a function is a descriptor if and only if it is declared as an array and some item of the body at any depth is a REDIM of it or a DIM of it with a size, or some call that is seen passes it whole to a library position or to a parameter that is a descriptor |
| `CallSites.CollectionSuffices` | crates/xb-compiler/src/c_emit_hoist.rs:1692-1910 | the collected edges yield the descriptors of all edges if and only if every edge there is that passes an array parameter to a library position or a descriptor finds that parameter a descriptor |
| `CallSites.HiddenCallLost` | crates/xb-compiler/src/c_emit_hoist.rs:1692-1910 | an array parameter that some call passes to a library position is a descriptor with all edges; with the collected ones it is if and only if it is resized in the function or a collected edge leads on from it |
| `CallSites.CompoundOverlooked` | crates/xb-compiler/src/c_emit_hoist.rs:1692-1800 | a function whose `SELECT CASE TRUE`, which is reduced to a Compound of an IF and a label, sorts its array parameter gets no descriptor for it; with the IF outside the Compound it does |
| `AttachGroups.Walk` | crates/xb-compiler/src/c_emit_hoist.rs:1090-1205 | the walk pushes one link for every whole-array ATTACH between two unbarred arrays of one type, in order |
| `FlatItems.LinksAre` | crates/xb-compiler/src/c_emit_hoist.rs:1090-1205 | the links are those of the items at any depth in emission order: of each whole-array ATTACH between two arrays of one type that are no parameters, descriptors, dynamic locals, names of two uses or shared ones |
| `AttachGroups.LastWins` | crates/xb-compiler/src/c_emit_hoist.rs:1213-1217 | of several links from one name the last one counts |
| `AttachGroups.NoLink` | crates/xb-compiler/src/c_emit_hoist.rs:1213-1217 | a name that no link starts from has no entry in the link table |
| `AttachGroups.FindHome` | crates/xb-compiler/src/c_emit_hoist.rs:1219-1234 | every chain walk terminates: it finds the root the links lead to, or none, and none if and only if they run into a circle |
| `AttachGroups.CyclicNoRoot` | crates/xb-compiler/src/c_emit_hoist.rs:1223-1233 | a name whose links run into a circle has no root |
| `AttachGroups.RootUnique` | crates/xb-compiler/src/c_emit_hoist.rs:1219-1234 | a name has at most one root |
| `AttachGroups.Invert` | crates/xb-compiler/src/c_emit_hoist.rs:1238-1253 | a home's entry holds the home and exactly the names that resolve to it, without repetition |
| `AttachGroups.LessExactly` | crates/xb-compiler/src/c_emit_hoist.rs:1256-1269 | one name sorts before another if and only if up to some place they are the same and there it ends or has the smaller character |
| `AttachGroups.CollectGroups` | crates/xb-compiler/src/c_emit_hoist.rs:1082-1270 | a name has an entry if and only if it is linked and its links do not run in a circle; the entry lists, sorted, at least two names: the linked names with the same root |
| `AttachGroups.EqualOrDisjoint` | crates/xb-compiler/src/c_emit_hoist.rs:1256-1269 | two groups with a common member are the same group |
| `Labels.FlattenInto` | crates/xb-compiler/src/c_emit_hoist.rs:663-692 | the walk pushes the items in emission order, parents first |
| `Labels.RebuildInto` | crates/xb-compiler/src/c_emit_hoist.rs:739-847 | the running index counts exactly the items in emission order, so each item is rebuilt under its own position |
| `Labels.DisambiguateLabels` | crates/xb-compiler/src/c_emit_hoist.rs:661-853 | the pass returns nothing if and only if no label name occurs twice, and else the renamed body |
| `Labels.OnlyNamesChange` | crates/xb-compiler/src/c_emit_hoist.rs:739-853 | the output is the input except for names of labels and of jumps to duplicated names, item by item at the same position; first occurrences keep their names |
| `Labels.DistinctExactly` | crates/xb-compiler/src/c_emit_hoist.rs:712-721 | all labels of the output are distinct if and only if no original label has a name that the pass generates |
| `Labels.JumpsForward` | crates/xb-compiler/src/c_emit_hoist.rs:722-737 | a jump to a duplicated name takes the new name of the nearest later occurrence, or of the first one when none is later |
| `Labels.ClashExample` | crates/xb-compiler/src/c_emit_hoist.rs:712-721 | labels a, a, a_dup1 come out with a_dup1 twice |
| `Labels.DupNameInjective` | crates/xb-compiler/src/c_emit_hoist.rs:719 | generated names of different occurrences are different |
| `Labels.DecimalIs` | crates/xb-compiler/src/c_emit_hoist.rs:719 | the number in a generated name is written in decimal digits without a leading zero |
| `DynNames.DynWalk.Items` | crates/xb-compiler/src/c_emit_hoist.rs:1390-1541 | the walker's six fields after a body are those of its trace of uses and declarations, run from the fields before; `EventsAre` and `DeclaredAt` say what the trace holds |
| `TraceItems.EventsAre` | crates/xb-compiler/src/c_emit_hoist.rs:1390-1541 | an event is in the trace if and only if an item at any depth gives it: a use as target, loop variable, operand of SWAP or READ, or in an expression that is looked at, at any depth of it; a declaration, marked as nested if and only if the item stands in a body of control flow, as its DIM |
| `TraceItems.DeclaredAt` | crates/xb-compiler/src/c_emit_hoist.rs:1390-1541 | a DIM gives its declaration, and the events before that are those that the items before the DIM give before the walk comes to it: the test at the end of a loop behind its body, the conditions of a case before its body |
| `TraceItems.ExprUses` | crates/xb-compiler/src/c_emit_hoist.rs:1364-1388 | the events of an expression are uses of exactly the names it mentions at any depth, as a symbol or an array, with UBOUND, SIZE or subscripts |
| `DynNames.WalkMeaning` | crates/xb-compiler/src/c_emit_hoist.rs:1346-1541 | each field of the walker means, for every name, what it says about the whole trace: declared how often, used early, nested, without a size |
| `DynNames.FirstDimType` | crates/xb-compiler/src/c_emit_hoist.rs:1346-1541 | the type kept for a name is that of its first DIM |
| `WalkItems.FieldsExactly` | crates/xb-compiler/src/c_emit_hoist.rs:1346-1541 | each field of the walker in terms of the items at any depth: how many DIMs a name has, whether one is as an array, as an array inside control flow, or without a size, and whether an item uses the name before the first of them |
| `WalkItems.TypeIsFirst` | crates/xb-compiler/src/c_emit_hoist.rs:1400-1404 | the type kept for a name is that of its first DIM item |
| `DynNames.CollectDynNames` | crates/xb-compiler/src/c_emit_hoist.rs:1564-1613 | the two tables hold exactly the dynamic arrays and the dynamic scalars, each with the type of its DIM, and an array without an array DIM with the type of the edge that makes it dynamic; `DynArraysAre` says which arrays these are |
| `WalkItems.DynArraysAre` | crates/xb-compiler/src/c_emit_hoist.rs:1564-1613 | an array is dynamic if and only if it is no parameter and is passed to a descriptor position, or has a DIM as an array and: some item is a GOSUB, an array DIM of it stands in control flow or has no size, an item uses it before its first DIM, or it has two DIMs |
| `DynNames.InPlaceExactly` | crates/xb-compiler/src/c_emit_hoist.rs:1579-1611 | a declared array stays an in-place C declaration if and only if no edge makes it dynamic and it has exactly one DIM, sized, at top level, in a body without GOSUB, with every walked use after it |
| `WalkItems.InPlaceItems` | crates/xb-compiler/src/c_emit_hoist.rs:1579-1611 | a declared array stays an in-place C declaration if and only if no edge makes it dynamic, no item is a GOSUB, and exactly one item is a DIM of it, with a size, outside control flow, and no item before that uses it |
| `MissedUses.DeclaredBeforeUse` | crates/xb-compiler/src/c_emit_hoist.rs:1390-1541 | an in-place declaration is the only DIM of its array, and no item before it uses the array where the walk looks; it comes before every use there is if and only if no item before it has the array as an operand or in a subscript of ATTACH, or in the size of a further dimension |
| `MissedUses.WrittenFirst` | crates/xb-compiler/src/c_emit_hoist.rs:1426-1432 | `a[index] = value` before `DIM a[size]` makes the array dynamic |
| `MissedUses.SameSteps` | crates/xb-compiler/src/c_emit_hoist.rs:1390-1541 | the missed uses leave no mark in the walker's fields |
| `ArrayStore.Store.Realloc` | crates/xb-compiler/src/c_emit_stmt.rs:319-326 | a reallocation keeps the common prefix at any free address, the old one included, leaves the rest undefined, and fails exactly when the allocator cannot serve it |
| `ArrayStore.Store.Redim` | crates/xb-compiler/src/c_emit_stmt.rs:305-338 | REDIM keeps the common prefix, default-fills a grown tail, and changes no other array |
| `ArrayStore.Store.Dim` | crates/xb-compiler/src/c_emit_stmt.rs:340-367 | DIM of a dynamic array leaves that many defaults, and changes no other array |
| `ArrayStore.Store.DimEmpty` | crates/xb-compiler/src/c_emit_stmt.rs:388-397 | DIM without a size empties the array, and changes no other |
| `ArrayStore.Store.DescriptorDim` | crates/xb-compiler/src/c_emit_stmt.rs:1206-1261 | through a descriptor, REDIM keeps the prefix and fills the tail, DIM makes every element the default |
| `ArrayStore.Store.RedimFlat` | crates/xb-compiler/src/c_emit_stmt.rs:171-206 | a multi-dimensional REDIM keeps the prefix but leaves a grown tail uninitialised |
| `ArrayStore.RedimFlatPromise` | crates/xb-compiler/src/c_emit_stmt.rs:171-206 | what the comment there promises, a default-filled tail, holds if and only if the array does not grow |
| `ArrayStore.Store.Assign` | crates/xb-compiler/src/c_emit_stmt.rs:579-615 | an assignment evaluates the index against the old bound, grows the array to it and default-fills the gap, and then evaluates subscript and value against the new bound; it is aborted exactly when the growth cannot be served, and says when it stores outside the block |
| `ArrayStore.WrittenExactly` | crates/xb-compiler/src/c_emit_stmt.rs:585-615 | an assignment does what it promises, index and value evaluated once before anything changes, if and only if the array does not grow, or both are the same after the growth, or the value is the default and the slot written instead holds what is written |
| `ArrayExprs.SameValue` | crates/xb-compiler/src/c_emit_expr.rs:612-680 | an expression over literals, variables, operators, calls, UBOUND and array elements keeps its value when only one array changes, if it does not look at that array as a whole and the slots of it that it reads keep theirs |
| `ArrayExprs.UnshownKept` | crates/xb-compiler/src/c_emit_stmt.rs:585-615 | an assignment whose index and value do not look at their own array as a whole, and read its elements only inside the bound, does what it promises |
| `ArrayExprs.StepUpKept` | crates/xb-compiler/src/c_emit_stmt.rs:585-615 | `a[i] = a[i - 1] + 1` does what it promises when `a[i - 1]` is inside the bound |
| `ArrayExprs.NextSlotOverruns` | crates/xb-compiler/src/c_emit_stmt.rs:585-615 | `a[UBOUND(a[]) + 1] = v` stores outside the block, whatever the value |
| `ArrayExprs.GrownBoundStored` | crates/xb-compiler/src/c_emit_stmt.rs:585-615 | `a[i] = UBOUND(a[])` past the end stores the new bound and not the old one |
| `ArrayExprs.FreshElements` | crates/xb-compiler/src/c_emit_stmt.rs:172-185 | the elements that a resize adds are empty strings in an array of strings and zeros in any other |
| `ArrayStore.Store.Attach` | crates/xb-compiler/src/c_emit_attach.rs:187-207 | a whole-array ATTACH moves pointer and bound, overwrites the destination and leaves the source empty |
| `ArrayStore.Store.TakeRow` | crates/xb-compiler/src/c_emit_attach.rs:92-124 | `ATTACH t[row,] TO a[]`: the row number is evaluated for each of the four assignments, against what the ones before have changed; the statement ends outside the table, with the row moved, or with cells that no longer own a block each, exactly as stated |
| `ArrayStore.Store.PutRow` | crates/xb-compiler/src/c_emit_attach.rs:25-53 | `ATTACH a[] TO t[row,]`: the same for its two evaluations |
| `ArrayStore.TakenExactly` | crates/xb-compiler/src/c_emit_attach.rs:92-124 | the four assignments move the row on every heap that holds the values if and only if the row cleared is the row read and the bound read fits its length; rows of no elements are no exception |
| `ArrayStore.PutExactly` | crates/xb-compiler/src/c_emit_attach.rs:25-53 | the assignments in the other direction move the array if and only if the row is the same, or row, array and the other row are equally long |
| `ArrayExprs.SteadyTaken` | crates/xb-compiler/src/c_emit_attach.rs:92-124 | a row number that looks neither at the array nor, as a whole, at the table and reads no element of its row keeps the row, so the row moves |
| `ArrayExprs.SteadyPut` | crates/xb-compiler/src/c_emit_attach.rs:25-53 | the same in the other direction |
| `ArrayExprs.NextRowTorn` | crates/xb-compiler/src/c_emit_attach.rs:92-124 | `ATTACH t[UBOUND(a[]) + 1,] TO a[]` with `a` empty is promised to move row 0; on every heap the code leaves row 0 and `a` with the same block and clears another row |
| `ArrayExprs.ClearedRowRead` | crates/xb-compiler/src/c_emit_attach.rs:92-124 | `ATTACH t[t[0,0],] TO a[]` with a zero there reads its last row number through the pointer just cleared, and ends well if and only if that gives zero |
| `ArrayStore.Store.Swap` | crates/xb-compiler/src/c_emit_select.rs:105-139 | SWAP of two arrays exchanges their contents and nothing else |
| `ArrayStore.Store.DimRows` | crates/xb-compiler/src/c_emit_stmt.rs:223-259 | DIM of a row table gives each row its own zeroed block |
| `ArrayStore.Store.GroupRedim` | crates/xb-compiler/src/c_emit_attach.rs:298-418 | the guarded group code resizes the member and all that share its block together; when nothing is shared its effect is exactly REDIM of the one member |
| `ArrayStore.Store.RepointGroup` | crates/xb-compiler/src/c_emit_attach.rs:298-418 | the member loop repoints exactly the members that still hold the old block |
| `ArrayStore.GroupResult` | crates/xb-compiler/src/c_emit_attach.rs:298-418 | a reallocation with repointing keeps every cell a live block of the right size, and keeps blocks unshared when they were |
| `ArrayStore.Store.Execute` | crates/xb-compiler/src/c_emit_stmt.rs:305-615 | every statement that completes keeps each cell's block at bound + 1 elements and unshared, and has its stated effect on plain sequences; it is aborted exactly at a request the allocator cannot serve, and ends outside a block or with torn cells only where the effect has no result |
| `ArrayStore.Store.Run` | crates/xb-compiler/src/c_emit_stmt.rs:305-615 | every run of statements has the effect of the run on a plain map from names to sequences, and stops early only at a request the allocator cannot serve or a statement without a result |
| `ArrayStore.KeptExactly` | crates/xb-compiler/src/c_emit_stmt.rs:171-615 | a statement's effect is what it promises if and only if it is no growing multi-dimensional REDIM, no growing assignment whose index or value shows the growth, no ATTACH to an array that is not empty, and no ATTACH of a row whose number does not keep its row |
| `ArrayStore.RunExactly` | crates/xb-compiler/src/c_emit_stmt.rs:171-615 | every prefix of a run has the promised effect if and only if every statement that is reached keeps its promise |
| `ArrayStore.DefinedStep` | crates/xb-compiler/src/c_emit_stmt.rs:171-206 | a statement leaves every slot initialised if and only if it is not a growing multi-dimensional REDIM |
| `ArrayStore.DefinedRun` | crates/xb-compiler/src/c_emit_stmt.rs:171-206 | runs without such a REDIM never show uninitialised memory |
| `FloatPrint.Increment` | crates/xb-compiler/src/c_runtime.rs:189-191 | the carry loop adds one to the digits in place, or reports that all were nines and leaves zeros |
| `FloatPrint.RoundsUp` | crates/xb-compiler/src/c_runtime.rs:188-192 | looking at the one digit after the cut gives half-up rounding of the whole expansion |
| `FloatPrint.HalfUpUnique` | crates/xb-compiler/src/c_runtime.rs:188-192 | the rounded number is the only multiple within half a unit, an exact half going up |
| `FloatPrint.RoundDigits` | crates/xb-compiler/src/c_runtime.rs:186-193 | rounding, the all-nines carry and zero trimming together give the trimmed decimal digits of the half-up rounded number and the exponent of the first one |
| `FloatPrint.TrimValue` | crates/xb-compiler/src/c_runtime.rs:193 | trimming zeros keeps the value |
| `FloatPrint.Precision` | crates/xb-compiler/src/c_runtime.rs:185-200 | no smaller precision is accepted by the read-back, and the chosen one is unless it is the last |
| `FloatPrint.Shortest` | crates/xb-compiler/src/c_runtime.rs:185-200 | the digits are those of the least precision up to 17 whose candidate reads back, else of 17 |
| `ReadBack.Nearest` | crates/xb-compiler/src/c_runtime.rs:185-200 | no decimal with at most `q` digits, whatever its exponent, is nearer to the number than the candidate of precision `q` |
| `ReadBack.AlwaysReadsBack` | crates/xb-compiler/src/c_runtime.rs:176-200 | for every double, what is printed reads back: seventeen digits are enough for any reader that takes the decimals nearer to the double than half way to its neighbours |
| `ReadBack.NoneShorter` | crates/xb-compiler/src/c_runtime.rs:185-200 | when the expansion is exact and reading back accepts whatever is near enough to it, no decimal with fewer digits than the printed one reads back |
| `ReadBack.ShorterAtEdge` | crates/xb-compiler/src/c_runtime.rs:176-200 | when the expansion is the number rounded and reading back accepts whatever is near enough to the number, a decimal with fewer digits can read back only at the edge: the candidate with as many digits, on the other side of the number, is rejected and at most one unit of the expansion's last digit farther away |
| `ReadBack.PrintedNear` | crates/xb-compiler/src/c_runtime.rs:176-217 | the printed text is within half a unit of digit `p`, and half a unit of the last digit of the expansion, of the number itself |
| `ReadBack.MissedShorter` | crates/xb-compiler/src/c_runtime.rs:185-200 | when it accepts an interval, a decimal with fewer digits that reads back lies on the other side of the number than the candidate with as many digits, and no nearer |
| `FloatText.BodyValue` | crates/xb-compiler/src/c_runtime.rs:209-217 | wherever the point falls, the text read as a number is the digits times their power of ten |
| `FloatText.CandidateValue` | crates/xb-compiler/src/c_runtime.rs:186-193 | the candidate has at most `p` digits, none idle, and the value of the rounded number |
| `FloatText.PrintedValue` | crates/xb-compiler/src/c_runtime.rs:184-217 | the printed text is canonical fixed notation within half a unit of digit `p` of the value of the expansion |
| `FloatBuffer.Place` | crates/xb-compiler/src/c_runtime.rs:206-218 | the guarded writes put down exactly as much of the text as fits |
| `FloatBuffer.FormatFloat` | crates/xb-compiler/src/c_runtime.rs:171-219 | the buffer holds the sign, the digits of the chosen precision and the point, as far as they fit, and a terminating zero; NaN, infinities and both zeros have their own texts |
| `FloatBuffer.SpecialTexts` | crates/xb-compiler/src/c_runtime.rs:172-180 | the texts of NaN, infinity and zero; a negative number has a minus in front of the text of the positive one |
| `FloatBuffer.RenderedValue` | crates/xb-compiler/src/c_runtime.rs:171-219 | what is printed for a finite double is canonical fixed notation, within half a unit of the last digit of the chosen precision of the value of its expansion |
| `FloatBuffer.NeverCut` | crates/xb-compiler/src/c_runtime.rs:220-222 | for the exponents of doubles nothing is ever cut off at 400 characters |
| `QuickSort.ModeBits` | crates/xb-compiler/src/c_runtime.rs:982 | the lowest binary digit of the mode asks for decreasing order and the next one for case folding, whatever the others are |
| `QuickSort.CompareBytes` | crates/xb-compiler/src/c_runtime.rs:971-973 | the byte loop compares byte strings lexicographically, with ASCII case folded on request, a prefix first |
| `QuickSort.Greater` | crates/xb-compiler/src/c_runtime.rs:967-979 | the comparator orders slots by value, reversed on request; `ComparedValues` says what that is for the values |
| `QuickSort.Opposite` | crates/xb-compiler/src/c_runtime.rs:967-979 | the comparison is antisymmetric in either direction and with folding |
| `QuickSort.Transitive` | crates/xb-compiler/src/c_runtime.rs:967-979 | the comparison is transitive in either direction and with folding |
| `QuickSort.SortIndices` | crates/xb-compiler/src/c_runtime.rs:984-988 | the insertion sort yields the positions of the range, each once, ordered by value and then by position |
| `QuickSort.WriteBack` | crates/xb-compiler/src/c_runtime.rs:989-991 | the range becomes the slots at the listed positions; nothing outside moves |
| `QuickSort.Sort` | crates/xb-compiler/src/c_runtime.rs:980-1001 | the sort stays inside the array exactly unless the lower bound is negative and there is something to compare or copy; then the range is sorted stably and nothing outside moves; the index array, when it has a bound, records the permutation and is the identity elsewhere; a failed allocation leaves the array as it was; `RangeInOrder` gives the order of the values |
| `QuickSort.SortedRange` | crates/xb-compiler/src/c_runtime.rs:980-1001 | the range holds the same slots as before, in order, equal ones in their old order |
| `QuickSort.OnlyOne` | crates/xb-compiler/src/c_runtime.rs:980-1001 | the resulting list is the only one ordered by value and position, so it is the interpreter's |
| `SortedValues.ComparedValues` | crates/xb-compiler/src/c_runtime.rs:967-979 | one slot is greater than another if and only if, for an even mode, its number is larger or the other string precedes it, and for an odd one the other way round |
| `SortedValues.StringsDecided` | crates/xb-compiler/src/c_runtime.rs:971-973 | a string precedes another if and only if up to some byte they are the same, capitals counting as small letters when folding, and there it ends or has the smaller byte |
| `SortedValues.RangeInOrder` | crates/xb-compiler/src/c_runtime.rs:980-1001 | in the sorted range no two numbers stand the wrong way round, rising for an even mode and falling for an odd one, and no string behind one that it precedes; those that could stand either way keep their order |
| `SortedValues.IndexAt` | crates/xb-compiler/src/c_runtime.rs:992-996 | the index array holds the permutation inside the range and every other position as itself |
| `ByteStrings.Concat` | crates/xb-compiler/src/c_runtime.rs:37-43 | concatenation yields a fresh string with both texts and no spare room |
| `ByteStrings.Append` | crates/xb-compiler/src/c_runtime.rs:44-66 | appending leaves the joined text, length within capacity and a terminating zero; it stays in place exactly when the capacity allows |
| `ByteStrings.AppendPaid` | crates/xb-compiler/src/c_runtime.rs:44-66 | every append keeps the account: doubling pays for the moves of long strings, and a short string moves at most once at each length |
| `ByteStrings.CapacityAfterMove` | crates/xb-compiler/src/c_runtime.rs:44-66 | the capacity after a move is the needed length or, from 4097 bytes on, twice the old length, whichever is more |
| `ByteStrings.Build` | crates/xb-compiler/src/c_runtime.rs:44-66 | appending part after part yields all parts joined, and all moves on the way copy at most three times the final length plus 4096 * 4097 / 2 bytes |
| `AppendChain.CollectAppendChain` | crates/xb-compiler/src/c_emit_stmt.rs:7-42 | the loop returns the parts of the left-nested text sum that starts at the target, first to last, when no part is caught by the guard |
| `AppendChain.ChainExactly` | crates/xb-compiler/src/c_emit_stmt.rs:7-42 | a chain is collected if and only if the expression is the target with one part or more added from the left as sums of strings, and the guard catches none of the parts |
| `AppendChain.GuardLooksFor` | crates/xb-compiler/src/c_emit_stmt.rs:43-81 | the guard catches a part if and only if the target occurs in it, at any depth, as a variable or as the array of an access |
| `AppendChain.GuardSees` | crates/xb-compiler/src/c_emit_stmt.rs:43-81 | the guard sees every look at the target's text except those through UBOUND |
| `AppendChain.AppendsAreSum` | crates/xb-compiler/src/c_emit_stmt.rs:501-527 | in every order of evaluation that C allows the nested in-place appends leave the left-associated sum, if no part after the first takes the UBOUND of the target |
| `AppendChain.MeasuringPartsMatter` | crates/xb-compiler/src/c_emit_stmt.rs:79 | the condition is exact: for every chain, a later part that takes the UBOUND of the target makes some allowed order differ |
| `AppendChain.UBoundAppended` | crates/xb-compiler/src/c_emit_stmt.rs:501-527 | `t$ = t$ + "x" + CHR$(65, UBOUND(t$))` with two characters or more in `t$`: the sum has one `A` less than the characters there, the appends in place as many |
| `GosubStack.Machine.Gosub` | crates/xb-compiler/src/c_emit_stmt.rs:1116-1131 | a plain GOSUB pushes its return point when there is room and goes on either way |
| `GosubStack.Machine.GosubAt` | crates/xb-compiler/src/c_emit_stmt.rs:1179-1191 | a computed GOSUB with address zero or a full stack is skipped |
| `GosubStack.Machine.GosubReturn` | crates/xb-compiler/src/c_emit_stmt.rs:1132-1178 | a RETURN pops only above the activation's base, and else leaves the function |
| `GosubStack.Isolation` | crates/xb-compiler/src/c_emit.rs:2306-2312 | in every run, while an activation runs, its base stands and nothing below it is popped or overwritten |
| `GosubStack.CallRestores` | crates/xb-compiler/src/c_emit.rs:2306-2312 | a call that comes back leaves the caller's stack as it was, and exactly so if and only if the callee left at its base |
| `GosubStack.RunMatches` | crates/xb-compiler/src/c_emit_stmt.rs:1116-1191 | every run that never fills the stack and leaves functions at their base behaves as if each activation had an unbounded stack of its own |
| `GosubStack.ProgramMatches` | crates/xb-compiler/src/c_emit_stmt.rs:1116-1191 | every program that keeps this order from its start behaves so |
| `GosubStack.LeakShows` | crates/xb-compiler/src/c_emit_stmt.rs:867-871 | leaving with a GOSUB pending always shows: the caller's next RETURN resumes in the dead callee |
| `GosubStack.FullStackShows` | crates/xb-compiler/src/c_emit_stmt.rs:1126-1130 | a GOSUB on a full stack always shows: as many RETURNs as the activation has entries, and one more, do not end where they would, a runaway recursive GOSUB included |
| `GosubStack.UnseenExactly` | crates/xb-compiler/src/c_emit_stmt.rs:1116-1191 | a step is right for every orderly continuation if and only if it is orderly itself, or the last activation leaves: a GOSUB without room, plain or computed, and a function left with a GOSUB pending can always be told |
| `GosubStack.KeepsTheFirst` | crates/xb-compiler/src/c_emit_stmt.rs:1116-1131 | of any number of GOSUBs from the start the first 256 return points are kept in order, and the others are not |
| `FlatArrays.EmitFlatOffset` | crates/xb-compiler/src/c_emit.rs:1337-1353 | the emitted sum of products is the Horner form of the subscripts with the values that the dimension texts have at the access, for any rank |
| `FlatArrays.EmitFlatSize` | crates/xb-compiler/src/c_emit.rs:1356-1366 | the emitted product is the number of elements |
| `FlatArrays.EmitSubscript` | crates/xb-compiler/src/c_emit.rs:1376-1415 | an access is flattened, with the values of the dimension texts at the access, when the shape is known and fits, and else takes the first subscript alone |
| `FlatArrays.CollectArrayDims` | crates/xb-compiler/src/c_emit_hoist.rs:860-908 | the recursive walk leaves the table that the items in emission order leave |
| `FlatArrays.LastDimWins` | crates/xb-compiler/src/c_emit_hoist.rs:860-908 | a name has the dimension texts of its last DIM or REDIM with a size in the order of the text, and none if it has no such DIM |
| `FlatArrays.SameOffsetsExactly` | crates/xb-compiler/src/c_emit.rs:1332-1353 | two shapes put all elements of the first at the same offsets if and only if behind every dimension with more than one element both have the same number of elements |
| `FlatArrays.InnerSizesDecide` | crates/xb-compiler/src/c_emit.rs:1332-1353 | when every dimension but the last has more than one element, that is if and only if all sizes after the first are equal |
| `FlatArrays.AccessExactly` | crates/xb-compiler/src/c_emit.rs:1337-1353 | the emitted code finds the elements where the interpreter has them if and only if every inner dimension text has at the access the value, not negative, that the DIM recorded |
| `FlatArrays.SizeChanged` | crates/xb-compiler/src/c_emit.rs:1337-1353 | `DIM a[9, n]` with 3, then 5 in `n`: `a[1, 0]` is element 4 for the interpreter and 6 for the emitted code |
| `FlatArrays.FirstAlone` | crates/xb-compiler/src/c_emit.rs:1368-1415 | the first subscript alone finds the elements if and only if all inner dimensions have one element |
| `FlatArrays.SumIsHorner` | crates/xb-compiler/src/c_emit.rs:1332-1353 | the sum of products equals the Horner form |
| `FlatArrays.OffsetInRange` | crates/xb-compiler/src/c_emit.rs:1332-1367 | subscripts in bounds give an offset inside the array |
| `FlatArrays.SubscriptsOfOffset` | crates/xb-compiler/src/c_emit.rs:1332-1367 | different subscripts have different offsets |
| `FlatArrays.OffsetOfSubscripts` | crates/xb-compiler/src/c_emit.rs:1332-1367 | every offset inside the array is that of some subscripts in bounds |
| `IntEmit.WideIsWrapping` | crates/xb-compiler/src/c_emit_expr.rs:150-290 | evaluated in 64 bits throughout, as the comment there says, every emitted integer tree has the interpreter's 32-bit wrapping value and the same division errors, and every value is a 32-bit number; what the operators compute is given by the laws of `BitLaws` |
| `IntEmit.NarrowExactly` | crates/xb-compiler/src/c_emit_expr.rs:150-290 | with C's own operand widths it has that value if and only if no operation with two 32-bit operands overflows; otherwise its behaviour is undefined; what the operators compute is given by the laws of `BitLaws` |
| `IntEmit.AnchoredIsSafe` | crates/xb-compiler/src/c_emit_expr.rs:216-239 | trees in which every operation has a variable as an operand are safe whatever the values |
| `IntEmit.PlusOnePlusOne` | crates/xb-compiler/src/c_emit_expr.rs:216-239 | adding one twice to a variable overflows at the largest number |
| `IntEmit.BitwiseFits` | crates/xb-compiler/src/c_emit_expr.rs:277-289 | the extra digits of 64-bit storage change no bitwise operation on 32-bit numbers |
| `IntEmit.QuotRem` | crates/xb-compiler/src/c_emit_expr.rs:216-239 | truncating division: quotient times divisor plus remainder is the dividend, and neither is larger |
| `BitLaws.DigitOf` | crates/xb-compiler/src/c_emit_helpers.rs:29-35 | a binary digit of AND, OR and XOR is 1 if and only if both, at least one, or exactly one of the operands' digits is |
| `BitLaws.SignOf` | crates/xb-compiler/src/c_emit_helpers.rs:29-35 | the result is negative by the same rule on the signs |
| `BitLaws.AndOrXor` | crates/xb-compiler/src/c_emit_expr.rs:277-289 | for numbers in range AND and OR add up to the sum of the operands, and XOR is OR less AND |
| `BitLaws.Neutral` | crates/xb-compiler/src/c_emit_expr.rs:277-289 | AND with -1 and OR with 0 change nothing, XOR with itself is 0, and XOR with -1 is what NOT computes |
| `BitLaws.FiveOrOne` | crates/xb-compiler/src/c_emit_expr.rs:277-289 | `5 OR 1` is 5 |
| `BitLaws.WrapIsCongruent` | crates/xb-compiler/src/c_emit_expr.rs:216-239 | narrowing takes the one 32-bit number that differs by a multiple of 2^32 |
| `BitLaws.RemainderSmall` | crates/xb-compiler/src/c_emit_expr.rs:216-239 | the remainder has the sign of the dividend and is smaller than the divisor |
| `BitLaws.Comparisons` | crates/xb-compiler/src/c_emit_helpers.rs:4-13 | what each of the six comparisons says of equal, smaller and larger numbers |
| `BitLaws.ComputedNarrow` | crates/xb-compiler/src/c_emit_expr.rs:216-239 | an emitted operation is computed in 32 bits if and only if no operand is a variable or the smallest literal, a shift count aside |

## Left out

- Files, sockets, time, the shell, graphics, mathematical functions, the command line and the C compiler driver: input and output or foreign calls.
- Statement-level reading of the text IR, with SELECT CASE conditions split at raw commas; the expression and PRINT-list readers are modelled in full.
- TextTypes.ReadsBackTyped: speaks of trees without calls; the types of calls are those of `TextTypes.CallAgreesExactly`, and coercions of call arguments, which change their types, are left out.
- Error texts: a failing reader is `Err`. The panic of the string reader on a lone quotation mark is `Err` as well.
- Byte positions: the readers scan characters instead of UTF-8 bytes; all characters they react to are ASCII, which occur in no longer sequence.
- The UBOUND and SIZE names collected beside the call edges: the closure does not use them.
- ArrayStore.Store.Attach: does not model the forms that copy with memcpy into arrays of fixed shape, nor those that move one string to or from an element and evaluate its subscript twice.
- ArrayStore.Store.TakeRow: does not model what a row out of range does, nor side effects of the row number.
- ArrayStore.Store.Assign: does not model side effects of the index and the value, which are evaluated up to three times, nor what a store outside the block does; the interpreter's limit of 2^20 elements for such growth is left out.
- ArrayExprs.UnshownKept: takes calls as functions of their arguments; a function that looks at a SHARED target by itself is left out.
- ArrayStore.Store.DimRows: does not model what follows an allocation failure, which the emitted code does not check, nor sizes that read the table being declared, which are evaluated again for each row.
- ArrayStore.Store.Dim: does not model reuse of the old block, which the emitted code leaks, nor the multi-dimensional DIM, whose string fill evaluates the sizes again.
- String elements inside array blocks are values: two arrays holding the same element address are not told apart.
- Indexed SWAP, which is lowered to a Compound that never stores the left value.
- FloatPrint.Shortest: does not model `strtod` and `snprintf`; reading back is a predicate on the candidate, arbitrary or accepting the decimals near the number, and the decimal expansion is an input of at least 17 digits.
- ReadBack.NoneShorter: takes an exact expansion; for a rounded one `ReadBack.ShorterAtEdge` holds. The narrower half of the interval below a power of two is not modelled in either; `ReadBack.MissedShorter` holds for it.
- QuickSort.Sort: does not model what happens once it has left the array; NaN elements are left out, and so is an index array that is the sorted array itself.
- ByteStrings.Append: does not model lengths of 2^31 and more, which the runtime truncates to `int`, nor an appended string that is the target itself, which the chain rewrite never produces.
- ByteStrings.Build: does not model failing reallocations, after which the capacity stops doubling.
- AppendChain.AppendsAreSum: does not model parts with side effects; the chain of a shared target, which tests a local symbol by name, is left out.
- GosubStack.Machine.GosubReturn: does not model the by-reference copy-out and the assembly of composite results before a return.
- FlatArrays.EmitFlatOffset: does not model overflow of 64-bit offsets; row tables keep nested subscripts and are left out.
- FlatArrays.AccessExactly: speaks of an access with as many subscripts as the DIM that ran had sizes.
- IntEmit.NarrowExactly: does not model the power operator, floating operands, octal literals, shift counts outside 0 to 31, and variables holding label addresses, which are wider than 32 bits.
- IntEmit.OperateNarrow: does not model strict ISO C for left shifts. A left shift keeps the bits that fit, as GNU C has it; ISO C leaves shifts of negative numbers undefined.
- C text precedence, as in the unparenthesised conditional of logical operators: the target is an expression tree.
- DynNames.InPlaceExactly: speaks of the uses the walker sees; `MissedUses.DeclaredBeforeUse` adds the others. Names of keyword-SHARED variables, which have storage of their own, count as no use.
- Descriptors.CollectDescriptorParams: takes a program as its list of items; two functions with one name count as the first, as in the source.
- CallSites.Agreement: does not model the forms at positions that take no descriptor, nor the extra argument of library calls.
- Lowering from the checked tree, library tables, diagnostics and entry lookup: case maps without a property beyond their cases.
- The bit helpers of the runtime: single instructions.
- The copying of arrays for by-value arguments and `XstCopyArray`: loops without state of their own.
