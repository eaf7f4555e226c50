# Verified model of the echo-js runtime and compiler core

This project models four parts of echo-js, an ahead-of-time JavaScript compiler with its own runtime, and
proves properties of them.

* **Lowering of structured control flow** (`lib/compiler.js`, `lib/exitable-scope.js`). `Completions` gives the
  statement language and its meaning by completion records; `BlockMachine` the basic blocks the compiler emits;
  `Emitter` and `Lowering` what is emitted for each statement form. `ReasonCell` is the meaning of the source when
  all finally clauses share one reason cell and one value cell, as the emitted code does, and `CellAgreement` when
  that makes no difference; `ExitNumbering` relates the codes in the cell to the statements. `Simulation` and
  `LoweringProof` are the proof that the emitted blocks behave as the source does, `SharedCells` the exact conditions
  around finalizers that contain finally clauses, and `Endings` and `ExitTheorems` what all this says about leaving
  try statements. `FunctionCompiler` has the visitor methods themselves, with their insert point and their scope and
  finally stacks.
* **The garbage collector and page allocator** (`runtime/ejs-gc.c`). `Cells`, `Layout`, `Words`, `SizeClasses` and
  `HeapModel` are mark bits, addresses, masks, size classes and the heap invariant; `Marking`, `Sweeping`,
  `Allocation` and `Allocator` the steps, `PageLists` the order of pages in their lists; `Lookup` the conservative
  address lookup and `Scanning` marking from words; `GcMachine` whole runs; `WorkList` and `Collector` the imperative
  code.
* **Dense arrays** (`runtime/ejs-array.c`). `ArraySpec` is the partial map with a length that an array has to be;
  `DenseArrays` the growable buffer; `Splicing` splice and reverse; `Quicksort` and `Sorting` the sort.
* **`TreeVisitor.visitArray`** (`lib/node-visitor.js`), in `TreeVisitor`.

Each imperative method is proved equal to a function of the old state, and the theorems are about those functions,
so they hold of the methods. `dafny verify dfyconfig.toml` checks everything.

## What the code does differently from its documentation

* `runtime/ejs-gc.c:333` calls 256 bytes the largest small object. `ffs(256)` is 9, above the limit of 8, so requests
  from 129 bytes on go to the large object store (`SizeClasses.ClassifyExactly`).
* `runtime/ejs-gc.c:67` says 4096 pages per arena; the constant is 8192, and so is the model's:
  8192 pages of 4096 bytes make an arena.
* The widest shift of the smearing in `runtime/ejs-gc.c:1205-1221` is guarded by a macro that nothing defines, so for
  some sizes above 2^32 the result is no power of two (`SizeClasses.Pow2CeilExactly`, `SizeClasses.SmearingBreaks`),
  and requests go astray (`SizeClasses.ClassifyExactly`).
* A page record keeps its cell size in an `int32_t` (`runtime/ejs-gc.c:321`), so a large object of 2^31 bytes has a
  negative one, which finalization hands to memset (`Allocator.ModestRequests`).
* `runtime/ejs-gc.c:500` compares the page index with `>` where `>=` is meant (`Lookup.FaultExactly`).
* `runtime/ejs-array.c:318` tests "less than one" where the standard's order is "at most zero"
  (`Sorting.SortsExactly`).
* `runtime/ejs-array.c:2730-2737` and `runtime/ejs-array.c:2879-2883` take a missing element as absent without looking
  at the prototype (`ArraySpec.AnswersExactly`).
* `runtime/ejs-array.c:298` and `runtime/ejs-array.c:1610` hand out the hole marker when a missing element is removed
  (`DenseArrays.DenseArray.PerformAll`).
* `runtime/ejs-array.c:136` creates the result of splice unfilled where section 9.4.2.2 of ECMAScript 2015 has it
  without elements (`Splicing.UnfilledExactly`).
* `lib/compiler.js:2035-2040` keeps one reason cell per function, which a try/finally inside a finalizer overwrites:
  pending jumps are lost (`SharedCells.NestedFinalizerForgets`) and codes of different statements collide
  (`SharedCells.ReasonsCollide`).
* `lib/node-visitor.js:25-26` puts the splice arguments into the array a visitor returned, so that array cannot be
  returned again (`TreeVisitorModule.WalkIsFlatMap`).

## Parameters of the model

Expressions are operations known by their identity; an oracle says what an operation yields after a given history,
so every deterministic behaviour of the program between statements is covered, and which values are strictly equal,
so that a value need not equal itself. Memory the operating system maps is a parameter of allocation that must be
unused. What an object points to is a finite map that the program may change at any time; registered roots, registers
and stacks are one arbitrary list of words. What the prototype chain has under a name is a parameter of reading an
array. A comparator may depend on how often it has been called. A visitor may change its own state.

## Model

| member | source | states |
|---|---|---|
| `LoweringProof.LoweringIsCellExec` | lib/compiler.js:2027-2212 | For every legal function body and every behaviour of its operations: the emitted blocks halt with a value and an effect trace if and only if the source completes with them when every try/finally shares one reason cell and one value cell, and no run ever falls off the end of a block. Divergence is preserved as well, since neither side completes. |
| `LoweringProof.LoweringPreservesMeaning` | lib/compiler.js:2027-2212 | For every legal function body in which a finalizer with a finally clause inside is entered with no jump pending and overwrites the cells, so in particular for every body without such finalizers: the emitted blocks halt with a value and an effect trace if and only if the source completes with them by completion records, without any cell. |
| `SharedCells.MeaningPreservedExactly` | lib/compiler.js:2035-2040 | For every legal function body: the emitted code has the meaning of the source if and only if sharing the cells makes no difference to the source. |
| `SharedCells.FinallyAgreesExactly` | lib/compiler.js:2150-2208 | For every try/finally whose finalizer ends normally, in every surrounding and for every pending completion: the shared cells make no difference if and only if the finalizer leaves in them what was recorded on the way in (for a pending nothing: no code of this statement). |
| `SharedCells.NestedFinalizerForgets` | lib/compiler.js:2035-2040 | With a finalizer that overwrites the cells (a try/finally on every path through it, with anything around it), a pending break, continue or return is always lost: the statement ends normally, so it does what the language says if and only if nothing was pending. |
| `SharedCells.EmittedNestedFinalizerForgets` | lib/compiler.js:2150-2208 | The same of the emitted code, at any point of any function and whatever follows: control ends up behind the statement. |
| `SharedCells.ReasonsCollide` | lib/exitable-scope.js:69-76 | Codes count from zero in every try scope, so a code left behind by a finalizer is taken for one of the outer statement: a concrete loop that the emitted code leaves although nothing was pending. |
| `CellAgreement.Agreement` | lib/compiler.js:2035-2040 | For statements whose finalizers have no finally clause inside, or overwrite the cells and are entered with no jump pending, the shared cells make no difference: same completion, same effects; without any finally the cells are untouched. |
| `CellAgreement.OverwritesCells` | lib/compiler.js:2043-2068 | A statement with a try/finally on every path through it, and nothing but statements without finally behind it, leaves the reason for falling off whenever it ends normally. |
| `Completions.StaysWithin` | lib/exitable-scope.js:155-165 | No jump leaves a statement that has none out of it. |
| `CellAgreement.JumpsAreNumbered` | lib/exitable-scope.js:69-76 | Every break or continue that leaves a statement has a code among the exits numbered for it. |
| `ExitNumbering.LowerNumbers` | lib/exitable-scope.js:69-76 | Lowering a statement gives every enclosing scope exactly the destinations, in exactly the order, that the statement has exits for it. |
| `ExitNumbering.TryBlockNumbers` | lib/compiler.js:2043-2068 | After a try block its scope has one code for each kind of exit, in the order the exits occur. |
| `LoweringProof.FunctionSimulates` | lib/compiler.js:1249-1363 | Step for step: with any bound on loop turns the emitted function either is still running after at least that many steps or has halted with the source's result and trace. |
| `LoweringProof.Simulate` | lib/compiler.js:685-715 | The invariant behind it, for every statement in every scope nesting, try/finally inside finalizers included: the emitted code ends where lowering goes on, or lands where the pending break, continue or return has to go, with the reason and value cells holding what the source with shared cells has in them. |
| `LoweringProof.SimulateTryFinally` | lib/compiler.js:2027-2212 | A try/finally with any finalizer: the finalizer runs exactly once on every way out, its own jump replaces a pending one, and otherwise control goes where the cells say. |
| `LoweringProof.SimulateTryBlock` | lib/compiler.js:2043-2068 | However the try block ends, control is at the start of the finally block with the reason that belongs to it. |
| `LoweringProof.SimulateDispatch` | lib/compiler.js:2150-2208 | After the finalizer the switch on the reason resumes the completion that the cells hold, through one trampoline per destination, and falls through for a code that is none of them. |
| `LoweringProof.SimulateReturn` | lib/compiler.js:1124-1161 | A return inside a finally-protected region stores value and reason and enters the innermost finally block; elsewhere it leaves the function. |
| `LoweringProof.SimulateSwitch` | lib/compiler.js:717-813 | A switch behaves as the source switch under any strict equality: the clause that `Completions.SelectExactly` describes is entered, bodies fall through in source order, break ends it. |
| `Completions.SelectExactly` | lib/compiler.js:721-753 | Which clause that is: the first whose test the value strictly equals, with the tests before it evaluated and none after it; if there is none, the first default clause wherever it stands; and the end only without one. |
| `Completions.TruthyExactly` | lib/compiler.js:864-889 | Every value but undefined, false and zero takes the branch. |
| `LoweringProof.SimulateTests` | lib/compiler.js:741-787 | The chain of check blocks performs the tests the source performs, in order and by the same strict equality, and ends in the block of the clause the source selects. |
| `LoweringProof.SimulateWhile` | lib/compiler.js:953-976 | While loops, including every number of turns, break and continue. |
| `LoweringProof.SimulateFor` | lib/compiler.js:891-927 | For loops with any of their three expressions missing; continue goes to the update. |
| `LoweringProof.SimulateDo` | lib/compiler.js:929-951 | Do loops; continue goes to the test. |
| `LoweringProof.SimulateIfElse` | lib/compiler.js:1089-1122 | Both arms of a conditional meet again in the merge block. |
| `LoweringProof.SimulateBreak` | lib/exitable-scope.js:92-116 | An unlabelled break reaches the nearest loop or switch, through the finally blocks in between. |
| `LoweringProof.SimulateContinue` | lib/exitable-scope.js:78-90 | An unlabelled continue reaches the nearest loop, or first the nearest finally block. |
| `ExitTheorems.JumpLeaves` | lib/compiler.js:2150-2208 | In the source, for a jump at any place inside sequences, conditionals, loops in any turn, switch clauses, try blocks and finalizers, with any finalizers: every finally block on its way runs exactly once, innermost first, and the jump is still pending then. |
| `ExitTheorems.ContinueGoesOn` | lib/exitable-scope.js:78-90 | A continue through such a context goes on with the next turn of its loop. |
| `ExitTheorems.EmittedJumpLands` | lib/exitable-scope.js:69-116 | In the emitted code, at any point of any function: a jump out of such a context runs each finally block on its way once, innermost first, and then is behind the nearest loop or switch, at the loop's next turn, or out of the function with its value; with further finally blocks outside, it is at the nearest one with the jump on record. |
| `ExitTheorems.EmittedExitRunsEachFinallyOnce` | lib/exitable-scope.js:69-116 | As whole functions: a break, continue or return out of any such context runs each finally block once, innermost first, and then reaches its own target with its own value; the trace tells loop exit, loop test and function exit apart, with and without a switch in between. |
| `ExitTheorems.EmittedReturnRunsEachFinallyOnce` | lib/compiler.js:1124-1161 | A return from any depth and any turn of any loop halts the emitted function with its value after the finally blocks on its way, each once. |
| `Emitter.AlikeExits` | lib/exitable-scope.js:155-165 | What may leave a scope, and which loop or finally block a continue goes to, depends only on the kinds of the enclosing scopes; adding destinations changes neither. |
| `Lowering.Lower` | lib/compiler.js:685-715 | Lowering only appends: blocks grow, scopes keep their shape, destinations are never renumbered, and no block other than the current one and new ones is touched. |
| `Lowering.DestinationsOutlive` | lib/exitable-scope.js:69-76 | Reason codes of a try scope count up from zero without gaps, and every destination is still a legal target once the scope has been left. |
| `FunctionCompilerModule.CompileFunction` | lib/compiler.js:1249-1363 | The visitor-style compiler returns exactly the lowered code, so for every legal body it halts with a value and a trace if and only if the source with shared cells completes with them, and for the bodies of `LoweringProof.LoweringPreservesMeaning` if and only if the source does. |
| `FunctionCompilerModule.FunctionCompiler.Visit` | lib/compiler.js:685-715 | Dispatch on the statement form. The new emitter state is the one the lowering function gives. |
| `FunctionCompilerModule.FunctionCompiler.VisitSwitch` | lib/compiler.js:717-813 | Clause and check blocks. The new emitter state is the one the lowering function gives. |
| `FunctionCompilerModule.FunctionCompiler.VisitTryFinally` | lib/compiler.js:2027-2212 | Scope and finally stacks are pushed and popped around the try block. The new emitter state is the one the lowering function gives. |
| `FunctionCompilerModule.FunctionCompiler.VisitTryBlock` | lib/compiler.js:2043-2068 | The protected block and the branch at its end. The new emitter state is the one the lowering function gives. |
| `FunctionCompilerModule.FunctionCompiler.CreateDispatch` | lib/compiler.js:2150-2208 | The switch on the reason cell. The new emitter state is the one the lowering function gives. |
| `FunctionCompilerModule.FunctionCompiler.CreateTrampolines` | lib/compiler.js:2195-2206 | One block per destination. The new emitter state is the one the lowering function gives. |
| `FunctionCompilerModule.FunctionCompiler.VisitReturn` | lib/compiler.js:1124-1161 | Value and reason stores. The new emitter state is the one the lowering function gives. |
| `FunctionCompilerModule.FunctionCompiler.VisitFor` | lib/compiler.js:891-927 | Five blocks. The new emitter state is the one the lowering function gives. |
| `FunctionCompilerModule.FunctionCompiler.VisitWhile` | lib/compiler.js:953-976 | Three blocks. The new emitter state is the one the lowering function gives. |
| `FunctionCompilerModule.FunctionCompiler.VisitDo` | lib/compiler.js:929-951 | Three blocks. The new emitter state is the one the lowering function gives. |
| `FunctionCompilerModule.FunctionCompiler.VisitIfElse` | lib/compiler.js:1089-1122 | Two arms. The new emitter state is the one the lowering function gives. |
| `FunctionCompilerModule.FunctionCompiler.LookupDestinationId` | lib/exitable-scope.js:69-76 | Finds or adds a destination by a loop over the list; the state and the code are those of the specification. |
| `FunctionCompilerModule.FunctionCompiler.ExitScopeAft` | lib/exitable-scope.js:92-116 | Break out of scope `i`. |
| `FunctionCompilerModule.FunctionCompiler.ExitScopeFore` | lib/exitable-scope.js:78-90 | Continue out of scope `i`. |
| `FunctionCompilerModule.FunctionCompiler.GenerateCondBr` | lib/compiler.js:864-889 | Constant tests branch on the constant, others on the falsy bit. |
| `Marking.MarkingIsExact` | runtime/ejs-gc.c:1015-1032 | From cells that all start white: after marking, an allocated cell is black if and only if a pointer path leads to it from an allocated root, everything else allocated is still white, nothing is gray, and free cells stay exactly free. |
| `Marking.ScanKeeps` | runtime/ejs-gc.c:702-754 | One turn of the mark loop keeps gray equal to the work list, each cell on it once, and conserves \|work list\| + \|white\| minus the cell it blackens, so the pair (white cells, work list length) decreases lexicographically. |
| `Marking.ScanKeepsInvariant` | runtime/ejs-gc.c:1015-1032 | The loop invariant: no black cell points to a white one, everything marked is reachable, every start cell is marked. |
| `Marking.ShadeKeeps` | runtime/ejs-gc.c:174-186 | Push-and-gray: only a white cell changes, only to gray, with exactly one push. |
| `Marking.BlackenKeeps` | runtime/ejs-gc.c:540-570 | Popping and blackening keeps the tri-colour invariant and the set of white cells. |
| `Marking.ShadeRootsKeeps` | runtime/ejs-gc.c:910-936 | Cells found from words: free ones among them are skipped, the others shaded. |
| `Sweeping.SweepFreesWhite` | runtime/ejs-gc.c:846-906 | The sweep frees exactly the white cells of small pages and of the large object store and moves nothing. |
| `Sweeping.CollectIsExact` | runtime/ejs-gc.c:1035-1111 | A whole collection is safe and exact: what is allocated afterwards is exactly what was reachable from the roots, all survivors are white under the swapped masks, and the heap structure holds. |
| `HeapModel.FinalizeKeeps` | runtime/ejs-gc.c:630-673 | Finalizing one object keeps the heap structure: counts equal free bits, an emptied page moves from its bucket to its arena's free list, an emptied large object leaves the store. |
| `GcMachine.EveryRunKeepsTheHeap` | runtime/ejs-gc.c:257-312 | For every run of allocations of any size, pointer writes and collections from any words: the heap ends up broken if and only if some step asked for 2^31 bytes or more and found memory, or scanned a word in the page an arena would carve next; after every other run allocated cells carry the current white, free cells are exactly CELL_FREE although the masks swap, every page is on exactly one list with the right count, no object points to a free cell. |
| `GcMachine.HeldObjectsSurvive` | runtime/ejs-gc.c:1035-1111 | Over a run that does not break the heap, an object that at every collection is reachable from objects whose addresses are among the scanned words is still there at its end, at the same address, with the pointers last written to it. |
| `GcMachine.CollectKeepsOk` | runtime/ejs-gc.c:1035-1111 | A collection from any words goes through if and only if none lies in the page an arena would carve next; the mutator's objects are then exactly those reachable from the objects the words are addresses of, and the invariant of the next collection holds. |
| `GcMachine.AllocKeepsOk` | runtime/ejs-gc.c:1308-1402 | An allocation keeps the invariant and all objects, gives a new one without pointers, and breaks the heap if and only if it asks for 2^31 bytes or more and finds memory. |
| `Scanning.ScanIsMarking` | runtime/ejs-gc.c:765-795 | A scan over any words reads a missing page record if and only if one of them lies in the page an arena would carve next; otherwise it marks exactly what marking from the cells found does. |
| `Scanning.HitsExactly` | runtime/ejs-gc.c:765-795 | The live cells found are exactly those whose address is one of the words. |
| `Scanning.ConservativeCollectIsExact` | runtime/ejs-gc.c:1035-1111 | A collection from words keeps exactly the objects reachable from those whose address is one of the words. |
| `Allocator.AllocIsSafe` | runtime/ejs-gc.c:1308-1402 | For every request size and every answer of the system: a cell handed out was free, is 8-aligned, disjoint from every other live cell, inside an arena behind its record or inside its own mapping behind its record and mark bit, and leaves everything live as it was; it is large enough if and only if less than 2^31 bytes were asked for. Running out of memory, a list outside the table and a wrong cell size in a record each happen if and only if a condition on the request and the heap holds. |
| `Allocator.ServedExactly` | runtime/ejs-gc.c:1308-1402 | A cell large enough is handed out if and only if less than 2^31 bytes are asked for and there is memory. |
| `Allocator.ModestRequests` | runtime/ejs-gc.c:1271-1296 | Up to 32 gigabytes: a request indexes outside the table if and only if it exceeds 2^31 bytes, and leaves a wrong cell size, the most negative one, in its record if and only if it is exactly 2^31 bytes and the system has the memory. |
| `Allocator.MappingGivesArena` | runtime/ejs-gc.c:196-230 | What is kept of an unused mapping of twice the arena size is an aligned block that overlaps nothing mapped before. |
| `Allocator.AllocSmallOutcomes` | runtime/ejs-gc.c:1365-1383 | An allocation from pages fails if and only if the first page of the list is full, no arena has room, and there may be no further arena or the system has none. |
| `Allocator.LiveCellsDisjoint` | runtime/ejs-gc.c:1224-1296 | Any two live cells of a well-formed heap, small or large, do not overlap. |
| `Allocator.CellAligned` | runtime/ejs-gc.c:82-85 | Every live cell starts at a multiple of eight. |
| `Allocation.AllocFromPageKeeps` | runtime/ejs-gc.c:1224-1268 | The cell at the bump pointer, or else the lowest free one, is handed out; the pointer moves one cell and is given up before the last one; count, bump invariant and colour are right afterwards. |
| `Allocation.TakePageKeeps` | runtime/ejs-gc.c:400-445 | An empty page of the arena is used again before another one is carved, for whatever cell size; addresses, lists, counts and bump pointer are right afterwards. |
| `Allocation.FreedLastReusedFirst` | runtime/ejs-gc.c:419-432 | The page that was emptied last is the first to be used again. |
| `Allocation.AddArenaKeeps` | runtime/ejs-gc.c:357-391 | Inserting a new aligned arena keeps the arena array strictly sorted and everything else in place. |
| `Allocation.NewPageKeeps` | runtime/ejs-gc.c:573-597 | The first arena with room supplies the page, and there is a new arena only if none has. |
| `Allocation.RotateKeeps` | runtime/ejs-gc.c:1389-1395 | Moving a full page to the end of its list keeps every list right. |
| `PageLists.RoomIsServed` | runtime/ejs-gc.c:1365-1397 | What that is for: if full pages are last, as many requests as the list has free cells are served without a new page or arena, and no more if no page is to be had. |
| `PageLists.HeadGives` | runtime/ejs-gc.c:1385-1397 | The list after one cell of its first page: as it was, or with the page that has become full at its end; every other list and page is unchanged. |
| `PageLists.HeadServes` | runtime/ejs-gc.c:1385-1397 | While a list with full pages last has a free cell, its first page has one, and taking it keeps full pages last. |
| `PageLists.AllocKeepsFullLast` | runtime/ejs-gc.c:1365-1397 | Between collections every allocation keeps full pages last in every list, new pages included. |
| `Layout.AlignedMappingPartitions` | runtime/ejs-gc.c:196-230 | For size equal to alignment and every address: the block returned is aligned and inside the double-size mapping and, with head and tail, partitions it exactly. |
| `Words.MaskIsDivision` | runtime/ejs-gc.c:71-85 | On 64-bit words and for every power of two: clearing the bits below it is rounding down to a multiple, keeping only those bits is the remainder. |
| `Words.AlignIsAlignUp` | runtime/ejs-gc.c:84-84 | EJS_ALIGN of every address: rounding up if the sum inside it does not wrap, null if it does. |
| `Words.IsAlignedIsRemainder` | runtime/ejs-gc.c:82-82 | IS_ALIGNED_TO tests the remainder. |
| `Words.PtrToArenaIsDivision` | runtime/ejs-gc.c:71-74 | PTR_TO_ARENA is rounding down to a multiple of the arena size. |
| `SizeClasses.Pow2CeilExactly` | runtime/ejs-gc.c:1205-1221 | For every 64-bit size: bit smearing gives a power of two if and only if no 32-bit window of zeros begins below the highest one bit of size - 1 and the windows do not cover the whole word; it is then the least power of two that is large enough. |
| `SizeClasses.SmearingBreaks` | runtime/ejs-gc.c:1205-1221 | The failing input 2^32 + 1. |
| `SizeClasses.Pow2CeilIsLeast` | runtime/ejs-gc.c:1205-1221 | For sizes from 1 to 2^32 it always does. |
| `SizeClasses.ClassifyExactly` | runtime/ejs-gc.c:1338-1365 | For every 64-bit size: at most 128 bytes get the least cell size that holds them and the bucket finalization computes from it; any other request is sent by the first 32-bit window of zeros in size - 1, to the large object store at bit 8 to 31, outside the table below bit 3 or from bit 32 on, and else to a list whose cells are too small. |
| `SizeClasses.ModestSizes` | runtime/ejs-gc.c:1338-1365 | Up to 32 gigabytes this is: large if and only if above 128 and at most 2^31 bytes, outside the table if and only if above 2^31. |
| `SizeClasses.HugeRequestGetsSmallestCell` | runtime/ejs-gc.c:1205-1221 | A request of more than 2^63 bytes that gets a 16-byte cell. |
| `SizeClasses.CellSizeBuckets` | runtime/ejs-gc.c:665-665 | The bucket computed at finalization is the bucket of the cell size. |
| `Lookup.FindSmall` | runtime/ejs-gc.c:485-537 | The address of every cell of every page maps back to exactly that cell. |
| `Lookup.FindLive` | runtime/ejs-gc.c:533-537 | So does the address of every live object, large ones included. |
| `Lookup.FindExact` | runtime/ejs-gc.c:493-537 | No other address maps to a cell. |
| `Lookup.FaultExactly` | runtime/ejs-gc.c:493-530 | The bounds check lets through the entry after the last page, so looking up an address reads a missing page record if and only if the address lies in the page an arena would carve next. |
| `Lookup.SearchArenas` | runtime/ejs-gc.c:484-490 | Binary search in the sorted table of arenas finds the arena if it is there, and nothing otherwise. |
| `Lookup.FindArenaHits` | runtime/ejs-gc.c:484-490 | In a sorted table the entry with a given address is found at its own index. |
| `CollectorModule.Collector.FindCell` | runtime/ejs-gc.c:484-537 | Binary search for the arena, page and cell arithmetic, else the list of large objects: the result is that of the lookup function, the use of a missing page record included. |
| `CollectorModule.Collector.MarkFromWord` | runtime/ejs-gc.c:776-794 | One word: null, outside the heap, a free cell, or a cell that is shaded if white; free cells stay free and allocated ones allocated. |
| `CollectorModule.Collector.MarkFromWords` | runtime/ejs-gc.c:765-795 | The loop over the words fails if and only if one of them lies in the page an arena would carve next, and otherwise leaves the marks of marking from the cells found. |
| `CollectorModule.Collector.PushAndGray` | runtime/ejs-gc.c:174-186 | The white test, the push and the colour. The new heap is the one the step function gives. |
| `CollectorModule.Collector.ScanObject` | runtime/ejs-gc.c:702-754 | Loop over the pointers of one object. The new heap is the one the step function gives. |
| `CollectorModule.Collector.ProcessWorklist` | runtime/ejs-gc.c:1015-1032 | Pop, blacken and scan until the list is empty; termination by the lexicographic measure. The new heap is the one the step function gives. |
| `CollectorModule.Collector.FinalizeObject` | runtime/ejs-gc.c:630-673 | Counts, lists and mark bit. The new heap is the one the step function gives. |
| `CollectorModule.Collector.SweepOnePage` | runtime/ejs-gc.c:858-888 | Loop over the cells of a page. The new heap is the one the step function gives. |
| `CollectorModule.Collector.SweepHeap` | runtime/ejs-gc.c:846-906 | Loops over arenas, pages and the large object list. The new heap is the one the step function gives. |
| `CollectorModule.Collector.CollectGarbage` | runtime/ejs-gc.c:1035-1111 | Mark from words, drain, sweep, swap masks. The new heap is the one the step function gives. |
| `CollectorModule.Collector.AllocCell` | runtime/ejs-gc.c:1224-1268 | Bump pointer or bitmap scan. The new heap is the one the step function gives. |
| `CollectorModule.Collector.AllocPage` | runtime/ejs-gc.c:419-445 | Free list or carving. The new heap is the one the step function gives. |
| `CollectorModule.Collector.AllocNewPage` | runtime/ejs-gc.c:573-597 | Loop over arenas. The new heap is the one the step function gives. |
| `CollectorModule.Collector.AllocSmallCell` | runtime/ejs-gc.c:1365-1397 | Bucket head, new page, rotation. The new heap is the one the step function gives. |
| `CollectorModule.Collector.AllocFrom` | runtime/ejs-gc.c:1385-1397 | A cell of the page, then the rotation of a full page. The new heap is the one the step function gives. |
| `CollectorModule.Collector.AllocLargeObject` | runtime/ejs-gc.c:1271-1296 | Large object store; a size that does not fit the record is reported. The new heap is the one the step function gives. |
| `CollectorModule.Collector.Allocate` | runtime/ejs-gc.c:1338-1402 | The size class decides between page lists and large object store, or leaves the table. The new heap is the one the step function gives. |
| `WorkListModule.WorkList.Push` | runtime/ejs-gc.c:131-157 | One LIFO sequence: pushing appends, null is ignored; segments below the head stay full, the head is never empty, recycled ones have size zero. |
| `WorkListModule.WorkList.Pop` | runtime/ejs-gc.c:159-172 | Popping takes the newest element, or null exactly when the sequence is empty. |
| `DenseArrays.DenseArray.PerformAll` | runtime/ejs-array.c:2711-2995 | Any run of get, has, set, delete, define, length change, push, pop, shift and unshift leaves the array that the same run leaves of a partial map with a length, whatever the prototype chain has; the results are the map's if and only if no operation of the run takes a missing element off an end, reads a missing element that is inherited, or asks for a hole that is inherited. Length stays within the allocation and no slot is read before it is written. |
| `DenseArrays.DenseArray.Perform` | runtime/ejs-array.c:2711-2995 | One operation: the new array is the map's, and the answer is the map's, the hole marker, or the answer without inheritance. |
| `DenseArrays.DenseArray.MaybeRealloc` | runtime/ejs-array.c:240-250 | Growth keeps the contents and makes the index fit. |
| `DenseArrays.DenseArray.GetAt` | runtime/ejs-array.c:2711-2747 | The element or undefined, for negative and large indices as well. |
| `DenseArrays.DenseArray.HasAt` | runtime/ejs-array.c:2865-2890 | Inside the array, present exactly when the map has the index; beyond its end, what the general implementation finds. |
| `ArraySpec.AnswersExactly` | runtime/ejs-array.c:2711-2890 | What a dense array answers is what the standard says if and only if the operation is none of the deviating ones. |
| `DenseArrays.DenseArray.SetAt` | runtime/ejs-array.c:2789-2862 | The map with one more element; a store beyond the end leaves holes. |
| `DenseArrays.DenseArray.DeleteAt` | runtime/ejs-array.c:2893-2916 | The map without the index; the length stays. |
| `DenseArrays.DenseArray.DefineAt` | runtime/ejs-array.c:2919-2995 | The same map as a store. |
| `DenseArrays.DenseArray.ChangeLength` | runtime/ejs-array.c:2830-2855 | The map cut off at the new length, or holes up to it. |
| `DenseArrays.DenseArray.PushAll` | runtime/ejs-array.c:283-290 | Contents with the values appended; the length afterwards is handed out. |
| `DenseArrays.DenseArray.PopLast` | runtime/ejs-array.c:293-299 | The map without its last element; its value, or the marker for a hole. |
| `DenseArrays.DenseArray.ShiftFirst` | runtime/ejs-array.c:1603-1615 | Every element one place down. |
| `DenseArrays.DenseArray.UnshiftAll` | runtime/ejs-array.c:2044-2055 | Every element up, the values in front; the length afterwards is handed out. |
| `DenseArrays.ShiftStep` | runtime/ejs-array.c:1603-1615 | On slots: dropping the first slot is shift on the map, and the raw slot is its result exactly when it is not a hole. |
| `DenseArrays.RunOneMore` | runtime/ejs-array.c:2711-2995 | How agreement of results extends over a run, in both directions. |
| `ArraySpec.StepExactly` | runtime/ejs-array.c:2711-2995 | Each operation of the map is the one whose length, elements at every index and answer are given there one by one, and no other. |
| `ArraySpec.RunKeepsWellFormed` | runtime/ejs-array.c:2789-2862 | After any run no index at or above the length is present. |
| `ArraySpec.PopUndoesPush` | runtime/ejs-array.c:283-299 | Round trip. |
| `ArraySpec.ShiftUndoesUnshift` | runtime/ejs-array.c:1603-1615 | Round trip. |
| `Splicing.Splice` | runtime/ejs-array.c:1828-2018 | For every argument list: unless the start index falls outside the array, the array becomes prefix, items, suffix with holes carried along in both directions; the deleted elements are handed out, and they are the deleted slice if and only if that slice has no hole; more than 50000 deleted elements abort before anything changes. |
| `Splicing.StartInsideExactly` | runtime/ejs-array.c:1843-1850 | The start index is inside the array if and only if narrowing to int does not carry it across a bound; always so for arguments that fit an int. |
| `Splicing.OpenGap` | runtime/ejs-array.c:1965-1998 | Shifting towards the back, growing where an element lands beyond the end. |
| `Splicing.CloseGap` | runtime/ejs-array.c:1921-1963 | Shifting towards the front. |
| `Splicing.Assembled` | runtime/ejs-array.c:1920-2015 | The three phases together give the concatenation. |
| `Splicing.StartExactly` | runtime/ejs-array.c:1843-1850 | The start index equals the standard's clamp if and only if narrowing to int keeps it on the same side of its bound; always so for arguments that fit an int. |
| `Splicing.DeleteCountExactly` | runtime/ejs-array.c:1855-1877 | The same for the delete count, which always stays in range. |
| `Splicing.UnfilledExactly` | runtime/ejs-array.c:1883-1910 | The result array is created unfilled: it equals the slice if and only if the slice has no hole. |
| `Splicing.Reverse` | runtime/ejs-array.c:1513-1598 | Values and holes end up mirrored. |
| `Quicksort.QuickSortPermutes` | runtime/ejs-array.c:302-337 | For every way of answering the comparisons, including stateful and inconsistent ones: termination, a permutation, nothing outside the range touched. |
| `Quicksort.QuickSortSorts` | runtime/ejs-array.c:302-337 | The range is in order for every total preorder that the answers fit, however they differ on elements that are level. |
| `Quicksort.PartitionSplits` | runtime/ejs-array.c:302-326 | Nothing before the pivot's place comes after it, nothing behind it comes before it. |
| `Quicksort.PartitionPermutes` | runtime/ejs-array.c:302-326 | Partitioning permutes the range, and the element from its middle is at the place given back. |
| `Quicksort.QuickSortDense` | runtime/ejs-array.c:329-337 | The in-place recursion leaves exactly what the specification gives. |
| `Quicksort.PartitionDense` | runtime/ejs-array.c:302-326 | The in-place loop with swaps. |
| `Sorting.SortsExactly` | runtime/ejs-array.c:302-337 | For a consistent comparator: every array comes out in the standard's order, stated without the code's comparison, if and only if the comparator never answers strictly between zero and one. |
| `Sorting.SortSorts` | runtime/ejs-array.c:2466-2497 | The result is in order: undefined last, then what the comparator says of the earlier and the later element, or without one dictionary order of the strings, index by index. |
| `Sorting.StringLessMeans` | runtime/ejs-array.c:189-195 | The comparison of strings is dictionary order: at the first index where they differ, or one is a prefix of the other. |
| `Sorting.FractionMisplaces` | runtime/ejs-array.c:312-321 | The failing input: two elements whose comparison is a fraction between zero and one come out in the wrong order. |
| `Sorting.OrderIsTotal` | runtime/ejs-array.c:151-199 | That order is a total preorder over all values whenever the comparator is one over defined values; by strings it always is. |
| `Sorting.UndefinedLast` | runtime/ejs-array.c:151-166 | For every comparator, stateful and inconsistent ones included, undefined values come last. |
| `Sorting.SortDense` | runtime/ejs-array.c:2483-2486 | The array holds the same elements, undefined last, in order if the comparator is consistent and without fractions. |
| `TreeVisitorModule.TreeVisitor.VisitArray` | lib/node-visitor.js:12-39 | The loop that splices the array it walks terminates and leaves what the walk function gives, the arrays visitors hand out included: each one spliced in keeps the index and the count of its splice in front. |
| `TreeVisitorModule.WalkIsFlatMap` | lib/node-visitor.js:21-28 | The walk leaves the flat map of the results if and only if no array is handed out again after it has been spliced in. |
| `TreeVisitorModule.SingleNode` | lib/node-visitor.js:17-36 | A node gives way to its result, to the elements of an array, or to nothing. |
| `TreeVisitorModule.FlatMapConcat` | lib/node-visitor.js:12-39 | The results of two parts of an array stand one behind the other. |
| `TreeVisitorModule.HandedOutTwice` | lib/node-visitor.js:21-28 | An array handed out for two neighbours goes in whole the first time and behind the index and the count of that splice the second time. |
| `TreeVisitorModule.VisitsEachOnce` | lib/node-visitor.js:12-39 | Each original element is visited once and in order, and inserted elements are not visited. |
| `TreeVisitorModule.FlatMapFlattensKeep` | lib/node-visitor.js:8-39 | The in-place variant is the pure one, flattened. |
| `TreeVisitorModule.TreeVisitor.VisitArrayKeep` | lib/node-visitor.js:8-10 | One result per element, in order. |

## Left out

- Labelled statements, labelled break and continue: labels are dropped on several paths of `lib/exitable-scope.js`.
- Exceptions, catch handlers and landing pads: they depend on the foreign unwinder; a try/catch is modelled as a block whose handler never runs.
- LoweringProof.LoweringPreservesMeaning: excludes bodies in which a finalizer with a finally clause inside may be entered with a jump pending or need not overwrite the cells, because the code does not preserve meaning there in general; LoweringProof.LoweringIsCellExec says what it does instead, for every legal body, and SharedCells.NestedFinalizerForgets and SharedCells.FinallyAgreesExactly when that is the meaning.
- Control flow inside expressions (logical operators, conditional expressions), for-in and for-of, generators, and returns from inlined function expressions.
- Sorting.SortsExactly: speaks of comparators that answer the same pair the same way; others have Sorting.SortPermutes and Sorting.UndefinedLast only.
- PageLists.RoomIsServed: asks for full pages to be last in the list, which a sweep may undo; a request then takes a new page although a later page of the list has room, exactly when the first page is full (Allocator.AllocSmallOutcomes).
- Allocator.AllocIsSafe: covers the first pass of allocation; the retry after running out of pages re-enters with a bucket that has already been shifted.
- CollectorModule.Collector.AllocLargeObject: reports a size that does not fit the record and promises nothing about the heap then, where the code links the object with a wrong cell size and goes on.
- CollectorModule.Collector.Allocate: the same, and for a list outside the table, where the code uses memory before the table.
- Lookup.FindSmall: pages, arenas and segments are table entries named by their index, so pointer aliasing between records is not captured; page data and mark bits are.
- Reading registers and the stack and scanning objects by type: the words and the pointers found are parameters. Module objects and generator stacks as further starting points.
- Words.AlignIsAlignUp: takes the wrapped sum inside EJS_ALIGN as given; that 64-bit addition is addition modulo 2^64 is not derived from bits.
- The shutdown collection, which sweeps without marking, heap growth policy, statistics, `find_arena` (unused), and `mmap` and `munmap` themselves.
- DenseArrays.DenseArray.DeleteAt: negative indices of store, delete and define and property names that are not indices are left out, as are setters on the prototype chain.
- DenseArrays.DenseArray.SetAt: lengths and indices are unbounded, so overflow of a 32-bit length is not modelled.
- Splicing.Splice: does not say what happens to the array once the start index is outside it, where the code uses indices outside its buffer; Splicing.StartInsideExactly says which arguments these are.
- Sparse arrays, which the runtime does not implement, and the array members with deviations of their own: copyWithin, reduceRight, every, and the dense form of slice.
- Sorting an array with holes, where the marker reaches the comparator.
- TreeVisitorModule.TreeVisitor.VisitArray: does not model visitors that change the walked array or refill an array they returned before.
- The LLVM bindings, the module loader, the console, dates and the tables of runtime entry points, which carry no state or control flow of their own that the parts above depend on.
