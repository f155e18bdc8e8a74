# Verified model of the Ola compiler

Ola compiles a Solidity-like language to LLVM IR whose words are elements of the prime field of
order p = 2^64 - 2^32 + 1.  This project models what the compiler decides and what the code it
emits computes, and proves it.

1. **Control flow.**  `Ast` and `Semantics` give the statement language and a big-step semantics
   in which a statement ends normally, by break, continue or return, by a trap, or not within its
   fuel.  `Analysis` is the resolver's result as attributes of the tree; `Resolver` is the resolver
   itself, with its counters per open loop, proved to compute it; `Acceptance` says, of the parsed
   tree alone, which programs it accepts and what it finds out; `Reachability` proves it sound.
   `Machine` runs basic blocks.  `Lowering` is the lowering of a resolved statement as a function on
   the emitter's state; `Emitter` is the emitter as it works, in place and with its loops, proved to
   compute it.  `Simulation` and `Compiler` prove, for the programs called `Faithful` that return a
   value where one is due, that code and source agree on every run: same result, same store, same
   traps, same divergence.  `LoopTargets` proves `Faithful` exact for where jumps go: without it some break or continue is lowered to a
   branch to a wrong or empty block.  (A program in which that jump is never executed still runs as
   meant.)  Since the emitter's loop stack outlives the function, all of this holds from any loop stack.
   `Blocks` says when every block is closed exactly once, `ReturnValues` and `FunctionReturns` when
   every return carries a value.
2. **Storage.**  `Vectors` (strings and dynamic arrays at hashed keys), `Records` and `Structs`
   (structs, walked leaf by leaf with a cursor), `Storage` (the emitted operations on a mutable
   store, with the cursor as an object moved in place), `Layout` (the slots of contract variables),
   `Members` (access to one member, and several variables side by side).
3. **Arithmetic and memory.**  `Numbers` and `Field`, `Arithmetic` (division, power, shifts, square
   root and field split, with untrusted answers that are checked), `Memory` (allocator, vectors,
   copying, slices), `ArrayLiteral` (index arithmetic and the flattening of nested literals).
4. **Compile-time algorithms.**  `Eval` (the two constant evaluators), `CallGraph` (which functions
   belong to a contract), `Symtable` (scopes), `SourceFile` (offsets, lines and columns).

Several properties one would expect do not hold of the code.  For those the model keeps the code as
it is, and the lemmas say exactly when the property holds:

- a do-while leaves its break and continue targets on the loop stack, and a `for` without condition
  can leave its `next` block empty: `LoopTargets.FaithfulIsExact` says when that matters, and
  `LoopTargets.BreakAfterDoWhileGoesWrong` and `LoopTargets.ContinueToNextGoesWrong` show what happens;
- blocks closed twice or never: `Blocks.FunctionBlocks`, `Blocks.VoidFunctionBlocks`;
- `return;` is accepted in a function with a return value and compiled to a return without one:
  `FunctionReturns.EveryReturnHasValue`, `FunctionReturns.BareReturnLosesValue`;
- storing and loading a struct walk differently over a `fields` member, a dynamic array or a nested
  struct that is not last: `Structs.StructRoundTrip`, `Structs.StructDelete`; its members are then not
  always the fields of its value: `Members.LoadMembersExactly`, `Members.MemberRead`, `Members.MemberWrite`;
- `pop` returns the cell after the last element and clears the one after that, because reading
  moves the cursor the delete then uses: `Vectors.PopReturnsLast`; the popped element can come back:
  `Vectors.RunRefinesExactly`, `Vectors.PoppedElementReturns`;
- deleting a string leaves its elements behind: `Vectors.DeleteEmpties`;
- the quotient of a division is not range checked (the check is applied to the address it is stored
  at): `Arithmetic.DivisionIsUnique`;
- shifts by 64 or more can be accepted with a wrong result, because the power of two has period 192
  in the field and is 2^32 - 1 at 64: `Arithmetic.PowTwoAccepted`, `Arithmetic.ShiftLeftLarge`,
  `Arithmetic.ShiftRightExact`, `Arithmetic.ShiftRightGoesWrong`;
- `++` and `--` are not checked: `Arithmetic.IncrementLeavesRange`;
- literals whose sub-arrays have different lengths can be accepted: `ArrayLiteral.AcceptedExactly`,
  `ArrayLiteral.PlacedRightExactly`, `ArrayLiteral.RaggedLiteralIsAccepted`;
- calls in the `next` of a `for` and in slice bounds are not collected: `CallGraph.ContractIsComplete`,
  `CallGraph.CallInNextIsMissed`;
- the overflow check for fields accepts p itself: `Eval.OverflowCheckExact`.

`dafny verify dfyconfig.toml` checks the whole project.

## Model

| member | source | states |
|---|---|---|
| Analysis.Resolve | src/sema/statements.rs:145-654 | with names already resolved, exactly one statement is pushed for every statement that is not rejected |
| Acceptance.AcceptedExactly | src/sema/statements.rs:145-654 | a statement is accepted if and only if every break and continue in it is in a loop and no statement of a block follows one whose end is not reached |
| Acceptance.ResolvesExactly | src/sema/statements.rs:145-654 | resolving fails exactly at something stray; otherwise the flag says whether the end is reached as read off the parsed tree, the counts are those of the breaks and continues of the loop around, and one error is reported for every block that goes on after its end cannot be reached |
| Acceptance.NextKeptExactly | src/sema/statements.rs:448-531 | the `next` of a loop with a condition is dropped if and only if the end of the body is not reached and no continue is in it |
| Resolver.LoopScopes.DoBreak | src/sema/symtable.rs:221-229 | counts against the innermost loop only, and fails exactly outside loops |
| Resolver.LoopScopes.DoContinue | src/sema/symtable.rs:231-239 | the same for continues |
| Resolver.BumpTop | src/sema/symtable.rs:205-240 | what is counted while a loop is open changes only its own counters, and closing it restores the stack around it |
| Resolver.StatementResolver.Statement | src/sema/statements.rs:145-654 | the resolver with its loop stack returns the flag, pushes the statements, and counts the breaks and continues that `Analysis.Resolve` says; it reports nothing but one "unreachable statement" per error counted, or, where it fails, the first stray statement last |
| Resolver.StatementResolver.ForStatement | src/sema/statements.rs:391-531 | the same for the two forms of `for`, with the dropping of `next` |
| Resolver.StatementResolver.IfStatement | src/sema/statements.rs:336-383 | the same for `if` |
| Resolver.StatementResolver.LoopBody | src/sema/statements.rs:285-298 | a loop body is resolved against counters of its own |
| Resolver.StatementResolver.Statements | src/sema/statements.rs:212-248 | the statements of a block, with the unreachable-statement error reported at the first one only |
| Reachability.Sound | src/sema/statements.rs:145-654 | in every run a statement completes normally only if its flag is true, and breaks or continues only if its own loop has counted it |
| Reachability.SoundLoop | src/sema/statements.rs:408-425 | a loop never ends in break or continue, and without a condition ends normally only if a break was counted |
| Reachability.DroppedNextNeverRuns | src/sema/statements.rs:485-517 | when `next` is dropped, no run of the body ends normally or in a continue |
| Reachability.DroppingNextIsHarmless | src/sema/statements.rs:485-517 | the loop with the kept `next` runs exactly as the loop that was written |
| Reachability.FlagIsReachable | src/sema/ast.rs:1146-1163 | in an accepted program the returned flag is `reachable` of the statement pushed |
| Reachability.FlagIsReachableSeq | src/sema/statements.rs:212-248 | in an accepted block every statement but the last is reachable at its end, and the flag says whether all are |
| Reachability.FlagOfRejectedProgramCanDiffer | src/sema/statements.rs:212-248 | acceptance is needed: a block with an unreachable statement whose flag and `reachable` differ |
| Reachability.MoreFuel | src/sema/statements.rs:145-654 | the meaning of a finished run does not depend on the fuel |
| Machine.EmittedIsExact | src/irgen/u32_op.rs:12-76 | field arithmetic followed by the range check evaluates every expression to its exact u32 value or stops, with the same store |
| Field.AddChecked | src/irgen/u32_op.rs:12-32 | a checked sum is accepted exactly when it is a u32, and is then exact |
| Field.SubChecked | src/irgen/u32_op.rs:34-54 | a checked difference is accepted exactly when it is not negative |
| Field.MulChecked | src/irgen/u32_op.rs:56-76 | a product of u32 values never wraps at p and is accepted exactly when it is a u32 |
| Lowering.Lower | src/irgen/statements.rs:20-286 | lowering never shrinks the loop stack, touches only the current block and new ones, and never takes an operation back |
| Lowering.ElseEntry | src/irgen/statements.rs:337-357 | a join block exists after the then-branch exactly when its end is reachable |
| Emitter.Builder.Statement | src/irgen/statements.rs:20-286 | the emitter working in place ends in the state `Lowering.Lower` says |
| Emitter.Builder.BlockStatements | src/irgen/statements.rs:29-36 | a block stops being lowered after the first statement that is not reachable at its end |
| Emitter.Builder.Statements | src/irgen/statements.rs:224-230 | other lists are lowered to their end; the returned flag is that of the last statement |
| Emitter.Builder.IfThen | src/irgen/statements.rs:289-319 | in-place form of if without else |
| Emitter.Builder.IfThenElse | src/irgen/statements.rs:322-373 | in-place form of if with else, the join block made by the first branch that needs it |
| Emitter.Builder.While | src/irgen/statements.rs:202-239 | in-place form of while |
| Emitter.Builder.DoWhile | src/irgen/statements.rs:240-276 | in-place form of do-while, with the pair that is never popped |
| Emitter.Builder.ForCond | src/irgen/statements.rs:78-136 | in-place form of `for` with a condition |
| Emitter.Builder.ForEver | src/irgen/statements.rs:137-192 | in-place form of `for` without a condition |
| Simulation.NoLeak | src/irgen/statements.rs:202-239 | lowering a statement without do-while restores the loop stack |
| Simulation.Simulate | src/irgen/statements.rs:20-286 | every run of an accepted faithful statement is matched by a machine run of its blocks, from where the emitter stood to where its outcome leads |
| Simulation.SimulateIfElse | src/irgen/statements.rs:289-373 | the same for both forms of if |
| Simulation.SimulateWhile | src/irgen/statements.rs:202-239 | the same for while |
| Simulation.SimulateDoWhile | src/irgen/statements.rs:240-276 | the same for do-while |
| Simulation.SimulateForLoop | src/irgen/statements.rs:78-192 | the same for both forms of `for` |
| Simulation.SimulateSeq | src/irgen/statements.rs:29-36 | the same for the statements of a block |
| ReturnValues.ReturnsHaveValues | src/sema/statements.rs:532-548 | a statement without a bare `return` never returns without a value |
| Compiler.Follow | src/irgen/functions.rs:55-97 | every source run of a compilable function, bare returns in value functions excluded, is matched by a run of its code, step count included |
| Compiler.CompileCorrect | src/irgen/functions.rs:55-97 | from any loop stack, the code of a compilable function halts with a value and store exactly when the source returns them, aborts exactly when it traps, and never gets stuck |
| FunctionReturns.LowerBare | src/irgen/statements.rs:59-66 | lowering a statement emits a return without a value if and only if the statement contains one |
| FunctionReturns.EveryReturnHasValue | src/irgen/functions.rs:73-96 | in the code of an accepted function with a return value every return carries one if and only if no `return` in its body omits it |
| FunctionReturns.BareReturnLosesValue | src/sema/statements.rs:532-548 | an accepted function with a named result, which the source returns and the code does not |
| Compiler.DivergesTogether | src/irgen/functions.rs:55-97 | the code runs for ever exactly when the source does |
| Blocks.AcceptedIsTidy | src/sema/statements.rs:212-248 | what acceptance guarantees about the flags in the resolved tree |
| Blocks.Shape | src/irgen/statements.rs:20-286 | lowering leaves the current block open exactly when the flag is true and closes all others exactly once, if every condition-less `for` in the statement reaches the end of its body and has a break; otherwise some block stays empty for good |
| Blocks.FunctionBlocks | src/irgen/functions.rs:73-96 | all blocks of an accepted function with a return value are closed exactly once if and only if that condition holds |
| Blocks.ShapeOfEnd | src/irgen/statements.rs:20-286 | every block but the one the emitter is left in is closed once, and that one is open, if and only if the statement `EndsOpen` |
| Blocks.VoidFunctionBlocks | src/irgen/functions.rs:94-96 | all blocks of an accepted void function, which always gets a final return, are closed exactly once if and only if its body `EndsOpen` |
| Blocks.VoidFunctionReachable | src/irgen/functions.rs:94-96 | where the end of a void function is reachable, that is the condition for functions with a return value |
| Blocks.EndlessLoopEndsOpen | src/irgen/statements.rs:137-192 | where it is not, `for (;;) {}` meets the condition and a return statement does not |
| LoopTargets.FaithfulIsExact | src/irgen/statements.rs:137-276 | every break and continue is lowered to a branch to its own loop, and to a block with code in it, if and only if the tree is `Faithful` |
| LoopTargets.Leaked | src/irgen/statements.rs:240-276 | a statement with a do-while leaves pairs on the loop stack, and whatever a statement leaves there names its own blocks |
| LoopTargets.StackRestoredExactly | src/irgen/statements.rs:202-276 | the loop stack is restored if and only if the statement contains no do-while |
| LoopTargets.Stale | src/irgen/statements.rs:193-200 | with such a pair on top, a statement that jumps out of itself has a jump that goes to the wrong block |
| LoopTargets.BreakAfterDoWhileGoesWrong | src/irgen/statements.rs:240-276 | an accepted program that returns at once, whose code runs for ever |
| LoopTargets.CodeOfBreakAfterDoWhile | src/irgen/statements.rs:193-276 | the blocks emitted for it |
| LoopTargets.ContinueToNextGoesWrong | src/irgen/statements.rs:137-192 | an accepted `for` without condition that returns, whose code runs into the empty `next` block |
| LoopTargets.CodeOfContinueToNext | src/irgen/statements.rs:137-200 | the blocks emitted for it |
| Vectors.Fill | src/irgen/storage.rs:386-416 | writing elements from an index on sets exactly those cells |
| Vectors.WriteRead | src/irgen/storage.rs:358-440 | a stored vector or string is read back, whatever was there before |
| Vectors.WriteFrame | src/irgen/storage.rs:358-440 | only the slot and elements below the old or new length are touched |
| Vectors.WriteKeepsClean | src/irgen/storage.rs:643-709 | with the shared cursor, elements at or past the length stay zero |
| Vectors.DeleteEmpties | src/irgen/storage.rs:526-593 | a deleted array or string is empty; a deleted array leaves no elements, a deleted string exactly those it had |
| Vectors.PushAppends | src/irgen/storage.rs:34-85 | push appends its argument, and without one whatever the next cell holds |
| Vectors.PopShortens | src/irgen/storage.rs:88-138 | pop shortens a non-empty array by one; the cells past the end stay zero exactly if the last element was |
| Vectors.PopReturnsLast | src/irgen/storage.rs:108-122 | with zeros past the end, pop returns the last element if and only if it is zero |
| Vectors.PopOfEmpty | src/irgen/storage.rs:124-135 | popping an empty array leaves length p - 1 |
| Vectors.RunFrame | src/irgen/storage.rs:34-138 | no run changes anything but the slot of the array and its elements |
| Vectors.RunRepresented | src/irgen/storage.rs:34-138 | after every run of write, push, pop and delete the words in storage are those of the array and of the tail that pops leave behind |
| Vectors.AnyIsShadow | src/irgen/storage.rs:34-138 | every storage is some array with some tail |
| Vectors.RunRefinesExactly | src/irgen/storage.rs:34-138 | from any storage, the array is the sequence throughout a run if and only if no element is pushed by default where the first cell of the tail is not zero |
| Vectors.CleanRunRefinesExactly | src/irgen/storage.rs:34-138 | from clean storage the operations of the run alone decide whether it is |
| Vectors.RunRefinesSequence | src/irgen/storage.rs:34-138 | so it is, from any storage, in runs without default pushes, and from clean storage in runs without pops, which also keep it clean |
| Vectors.PoppedElementReturns | src/irgen/storage.rs:88-138 | with both in the run it is not: push x, pop, push() gives x |
| Vectors.BoundsCheckExact | src/irgen/expression.rs:1251-1264 | the range check on (length - 1) - index accepts exactly the indices below the length that are less than 2^32 from it |
| Storage.ContractStorage.StoreVector | src/irgen/storage.rs:643-709 | the two loops, sharing a cursor, leave behind `Vectors.WriteVector` |
| Storage.ContractStorage.ClearElements | src/irgen/storage.rs:692-708 | the clearing loop zeroes the elements between two indices and no others |
| Storage.ContractStorage.LoadVector | src/irgen/storage.rs:598-640 | the loading loop returns the contents |
| Storage.ContractStorage.DeleteArray | src/irgen/storage.rs:526-570 | the deleting loop leaves behind `Vectors.DeleteVector` |
| Storage.ContractStorage.ArrayPush | src/irgen/storage.rs:34-85 | push in the order of the code, leaving behind `Vectors.PushVector` |
| Storage.ContractStorage.ArrayPop | src/irgen/storage.rs:88-138 | pop with the cursor moved by the load, returning `Vectors.Popped` |
| Storage.ContractStorage.Subscript | src/irgen/expression.rs:1227-1282 | at a numbered slot an in-bounds subscript is the cursor after index moves, and any other stops the program |
| Storage.ContractStorage.SubscriptAt | src/irgen/expression.rs:1230-1233 | at a slot held by a cursor the element is that of the next slot |
| Storage.ContractStorage.Store | src/irgen/storage.rs:308-491 | storing a value of any modelled type leaves behind `Structs.StoreValue`, with the cursor where its walk ends |
| Storage.ContractStorage.Load | src/irgen/storage.rs:140-306 | loading returns `Structs.LoadValue`, with the cursor where its walk ends |
| Storage.ContractStorage.Delete | src/irgen/storage.rs:493-595 | after deleting a value of any type every slot met is empty, the elements of an array first met there are cleared up to its length, the elements of strings and everything else are as before; the cursor is where the walk ends |
| Records.StoreFrame | src/irgen/storage.rs:442-471 | storing touches only the slots its walk visits and their elements |
| Records.DeleteFrame | src/irgen/storage.rs:572-587 | and so does deleting |
| Records.FallsBehind | src/irgen/storage.rs:458-470 | a walk gets less far than loading exactly if it fails to move on after some leaf where loading does |
| Records.LeavesRoundTripExactly | src/irgen/storage.rs:242-471 | leaf lists round-trip for all values and storages if and only if storing moves on after every leaf but the last |
| Records.LeavesStoredExactly | src/irgen/storage.rs:308-491 | every leaf is left in a slot of its own, for all values and storages, if and only if storing moves on after every leaf but the last |
| Records.ElementsClearedExactly | src/irgen/storage.rs:544-587 | the elements in a slot are cleared by a delete, for all storages, if and only if an array is met there first |
| Records.LeavesDeletedExactly | src/irgen/storage.rs:572-587 | after a delete all leaves read as nothing, for all storages, if and only if no leaf but the last is of type `fields` |
| Structs.StructRoundTrip | src/irgen/storage.rs:242-471 | loading returns what was stored, for all values and storages, if and only if in every struct the fields before the last are words, addresses, hashes or strings |
| Structs.StructDelete | src/irgen/storage.rs:572-587 | loading after delete gives the zero of the type if and only if no leaf but the last is of type `fields` |
| Structs.StructStoredExactly | src/irgen/storage.rs:308-491 | what storing leaves in every cell is the leaves in consecutive slots, with nothing left of longer strings and arrays and everything else unchanged, for all values and storages, if and only if the type is storable |
| Structs.StructDeleted | src/irgen/storage.rs:493-595 | what deleting leaves in every cell, for all types; the elements in a slot are cleared, for all storages, if and only if an array is the first leaf deleting meets there, and the array then stays clean |
| Structs.StructFrame | src/irgen/storage.rs:242-587 | keys outside the slots of the struct and their elements are untouched |
| Structs.BuildFlat | src/irgen/storage.rs:251-260 | a struct value is built again from its leaves |
| Members.MemberRead | src/irgen/expression.rs:703-727 | every member of every stored value reads as the field that was stored, from any storage, if and only if the struct is storable |
| Members.MemberWrite | src/irgen/expression.rs:703-727 | assigning any member and loading the struct gives the struct with that field replaced, for all values and storages, if and only if no field before the last holds a dynamic array and every field is storable |
| Members.OtherMember | src/irgen/expression.rs:703-727 | storing or deleting one member changes no other, whatever their types |
| Members.VariablesApart | src/bin/olac.rs:325-343 | storing or deleting one variable of a contract changes the loaded value of no other, whatever their types |
| Members.LoadedAt | src/irgen/storage.rs:242-260 | where loading the whole struct reads a field |
| Members.LoadMembersExactly | src/irgen/expression.rs:703-727 | the member offset, a sum of slot counts, is where loading the whole struct reads the field, for all storages and members, if and only if no field before the last holds a dynamic array |
| Layout.Partition | src/bin/olac.rs:325-343 | every slot of a contract belongs to exactly one leaf path, and none of them lies outside the layout |
| Layout.Injective | src/bin/olac.rs:325-343 | different leaf paths have disjoint slots inside [0, size) |
| Layout.FillsExactly | src/sema/types.rs:956-981 | the first slots of the leaves fill the layout if and only if no leaf is given more than one |
| Layout.ArraySlotsExact | src/sema/types.rs:956-981 | a dynamic dimension, wherever it stands, counts as one, and a fixed one as its length |
| Layout.InOrder | src/irgen/expression.rs:703-727 | leaves lie in the order of their paths: fields as declared, elements by index |
| Members.OneSlotPerLeaf | src/sema/types.rs:956-981 | the storage walk has as many leaves as the layout gives the type slots, dynamic arrays included |
| Layout.LayoutContract | src/bin/olac.rs:325-343 | one entry for every variable that is not constant, at the sum of the sizes before it; the size is the sum of all |
| Layout.EntryOffset | src/irgen/expression.rs:1266-1279 | a part of a variable lies at the slot of its entry plus member offsets and index times element size |
| Arithmetic.U32DivMod | src/irgen/corelib.rs:517-601 | the checks in order, the range check on the quotient's address included |
| Arithmetic.DivModAnswers | src/irgen/corelib.rs:540-591 | the checks pass exactly for r < divisor with quotient * divisor + r equal to the dividend plus a multiple of p |
| Arithmetic.HonestDivision | src/irgen/corelib.rs:517-601 | nothing passes for divisor 0, and the right answer passes for every other |
| Arithmetic.SmallQuotientIsExact | src/irgen/corelib.rs:517-601 | passing answers whose quotient is a u32 are exactly the Euclidean quotient and remainder |
| Arithmetic.DivisionIsUnique | src/irgen/corelib.rs:566-591 | no other answer passes if and only if the divisor is at most 1 |
| Arithmetic.U32Power | src/irgen/corelib.rs:603-655 | the loop returns base^exp mod p, and stops the program if that is not a u32 |
| Arithmetic.PowerExact | src/irgen/corelib.rs:603-655 | below p the power is exact and accepted exactly when it is a u32 |
| Arithmetic.PowTwoAccepted | src/irgen/u32_op.rs:224-230 | 2^r passes the check exactly for r mod 192 below 32 or equal to 64, where it is 2^32 - 1 |
| Arithmetic.ShiftLeft | src/irgen/u32_op.rs:216-238 | accepted exactly when the power and the product are u32 values |
| Arithmetic.ShiftLeftSmall | src/irgen/u32_op.rs:216-238 | shifts by less than 64 are exact or rejected |
| Arithmetic.ShiftLeftLarge | src/irgen/u32_op.rs:216-238 | of the larger ones an accepted result is right only for zero |
| Arithmetic.ShiftRight | src/irgen/u32_op.rs:240-273 | an accepted quotient that is a u32 is the operand divided by the power |
| Arithmetic.ShiftRightExact | src/irgen/u32_op.rs:240-273 | which amounts pass; the honest answer then passes, and is the shifted operand if and only if the amount is below 64 or the operand below the power as the field sees it |
| Arithmetic.ShiftRightGoesWrong | src/irgen/u32_op.rs:240-273 | by 192 an operand is not shifted at all, and by 64 the largest one gives 1 |
| Arithmetic.SqrtExact | src/irgen/corelib.rs:316-351 | a root passes exactly if its square is the value, without wrapping |
| Arithmetic.SqrtUnique | src/irgen/corelib.rs:316-351 | at most one root passes |
| Arithmetic.SplitAnswers | src/irgen/corelib.rs:657-727 | the passing pairs are the halves of x and, where they fit, of x + p |
| Arithmetic.SplitUnique | src/irgen/corelib.rs:657-727 | the honest pair always passes, and is the only one if and only if x is at least 2^32 - 1 |
| Arithmetic.BitwiseNotExact | src/irgen/u32_op.rs:305-318 | the complement is never rejected |
| Arithmetic.IncrementLeavesRange | src/irgen/expression.rs:219-281 | `++` and `--` stay a u32 exactly away from the ends of the range |
| Memory.InHeapExactly | src/irgen/corelib.rs:382-409 | every word given out lies in the heap if and only if all blocks together fit |
| Memory.BlocksDisjoint | src/irgen/corelib.rs:382-409 | as long as they fit, no word belongs to two blocks |
| Memory.TopIs | src/irgen/corelib.rs:399-403 | the allocator stands at the start plus everything given out, modulo p |
| Memory.CopyMoves | src/irgen/corelib.rs:449-515 | copying down or between disjoint blocks moves the block and changes nothing else |
| Memory.SliceChecksExact | src/irgen/expression.rs:1348-1363 | the three checks accept exactly the slices inside the vector |
| Memory.Heap.Malloc | src/irgen/corelib.rs:382-409 | returns the current address and moves it by the size |
| Memory.Heap.VectorNew | src/irgen/corelib.rs:411-447 | the same with a first word holding the length |
| Memory.Heap.Memcpy | src/irgen/corelib.rs:449-515 | the loop copies lowest first, with addresses modulo p |
| Memory.Heap.ArraySlice | src/irgen/expression.rs:1314-1381 | accepted exactly for bounds inside; then, as long as the heap has room, a fresh vector with the elements in between, everything given out before unchanged |
| ArrayLiteral.Peel | src/irgen/expression.rs:611-621 | the loop of remainders and quotients computes the index of every dimension, outermost first |
| ArrayLiteral.PeeledOffset | src/irgen/binary.rs:215-226 | the offset of the peeled indices in the nested array type is the element number, modulo the array size |
| ArrayLiteral.PeelIsBijective | src/irgen/expression.rs:611-628 | every in-range index list is that of exactly one element number |
| ArrayLiteral.Place | src/irgen/expression.rs:608-643 | every cell some value falls on holds the last one that does |
| ArrayLiteral.FlatAt | src/sema/expression/literals.rs:481-532 | flattening a rectangular literal puts every element at the offset of its indices |
| ArrayLiteral.RectangularDimensions | src/sema/expression/literals.rs:528-530 | the dimensions collected along the first elements are those of the literal |
| ArrayLiteral.AcceptedExactly | src/sema/expression/literals.rs:481-532 | a literal is accepted if and only if in every list the parts are all elements, or all lists of the same length |
| ArrayLiteral.RectangularExactly | src/sema/expression/literals.rs:481-532 | a literal is rectangular if and only if its elements have the index lists of an array |
| ArrayLiteral.PlacedRightExactly | src/irgen/expression.rs:608-643 | an accepted literal has the elements of the array, each ending up in its own cell, if and only if it is rectangular |
| ArrayLiteral.Compile | src/irgen/expression.rs:599-646 | an array is made if and only if the literal is accepted; if it is rectangular every element is found at its own indices |
| ArrayLiteral.RaggedLiteralIsAccepted | src/sema/expression/literals.rs:481-532 | an accepted literal that is not: six elements for an array of four, the fifth in the place of the first |
| Eval.EvalPower | src/sema/eval.rs:91-113 | the counting loop computes the power, and fails exactly for negative exponents |
| Eval.TruncatedExact | src/sema/eval.rs:39-69 | quotient and remainder rebuild the dividend; the remainder is smaller than the divisor and has the sign of the dividend |
| Eval.BitwiseAt | src/sema/eval.rs:70-90 | and, or and xor work on every binary digit by itself, for negative numbers too |
| Eval.OperateExact | src/sema/eval.rs:17-144 | which operands have no value, and for every operator what the value is in terms of the operands: differences undone by sums, rounding towards zero, digit by digit, floor of a shift |
| Eval.ComplementExact | src/sema/eval.rs:151-154 | both complements have a value exactly if the operand has, with every binary digit turned over |
| Eval.InlineExact | src/sema/eval.rs:145-182 | evaluating is evaluating the tree with constants replaced by their initializers, casts dropped and complements written as subtractions from -1, and succeeds only where every constant has one |
| Eval.FoldInlined | src/sema/eval.rs:17-192 | folding that tree gives what evaluating the original does where its exponents are below 2^16, and nothing otherwise |
| Eval.FoldOperateExact | src/sema/eval.rs:240-583 | both evaluators compute the same operators, but folding refuses exponents from 2^16 on |
| Eval.FoldIsEval | src/sema/eval.rs:17-192 | folding gives a literal if and only if the nodes are ones it looks into, the exponents are below 2^16 and evaluation succeeds, and then the same value |
| Eval.FoldStops | src/sema/eval.rs:194-234 | the search stops exactly at an operator on folded operands that has no value or too large an exponent |
| Eval.FitsExactly | src/sema/eval.rs:614-628 | counting bits is comparing with a power of two |
| Eval.OverflowCheckExact | src/sema/eval.rs:604-645 | an unsigned type accepts exactly its values, the field type its elements and p; it panics exactly from 2^64 on |
| CallGraph.Contract.AddExternalFunctions | src/sema/external_functions.rs:16-63 | terminates with the least set of functions that contains the contract's own and the initializers' callees and is closed under collected calls; says which entries it marks |
| CallGraph.Contract.Round | src/sema/external_functions.rs:33-62 | one round of the worklist |
| CallGraph.SecondRun | src/sema/mod.rs:95-99 | a second run adds no function, and changes no entry if and only if no own function is called only by added ones |
| CallGraph.ContractIsComplete | src/sema/external_functions.rs:16-127 | the functions of the contract are the least set closed under all calls, seen or not, if and only if every unseen call in one of them or in an initializer is to one of them |
| CallGraph.CallInNextIsMissed | src/sema/external_functions.rs:89-94 | a function called only in the `next` of a `for` is left out |
| CallGraph.CollectsExactlyIn | src/sema/external_functions.rs:66-127 | the calls collected are all calls of the tree without the `next` of loops and the expressions not looked into |
| CallGraph.SplitCallsIn | src/sema/ast.rs:1102-1144 | the calls of a statement are those collected and those not seen |
| Symtable.SearchOrder | src/sema/symtable.rs:169-177 | without shadowing, outermost-first search is innermost-first lookup |
| Symtable.Table.Find | src/sema/symtable.rs:169-177 | the outermost-first loop finds what innermost-first lookup would |
| Symtable.Table.Add | src/sema/symtable.rs:94-141 | uses up a fresh number and records the variable; a free name is found under that number from then on, in the innermost scope, every other name is found as before, and for an empty or taken name nothing changes |
| Symtable.Table.ExclusiveAdd | src/sema/symtable.rs:143-167 | the same, but leaves everything as it is when the name is taken |
| Symtable.Table.LeaveScope | src/sema/symtable.rs:183-185 | closes the innermost scope only |
| Symtable.FoundAfterRun | src/sema/symtable.rs:94-185 | over every run of a new table a name is found if and only if some add of it was made in a scope still open, and then under the number the first such add was given |
| Symtable.NeverShadowed | src/sema/symtable.rs:94-185 | over every run a name is in at most one open scope |
| Symtable.NumbersAreFresh | src/sema/symtable.rs:103-104 | over every run all numbers in the scopes are below the next one |
| Symtable.ScopeRestores | src/sema/symtable.rs:179-185 | opening a scope, anything balanced, and closing it restores every lookup |
| SourceFile.New | src/sema/file.rs:8-22 | the index is strictly increasing and holds exactly the offsets after newlines |
| SourceFile.LineAndColumn | src/sema/file.rs:52-64 | the line is the number of newlines before the offset, the column the distance from the last |
| SourceFile.OffsetRoundTrip | src/sema/file.rs:52-73 | to line and column and back is the identity |
| SourceFile.PositionRoundTrip | src/sema/file.rs:52-73 | the other way round it is, if and only if the position lies in its line |

## Left out

Control flow
- Expressions are u32 literals, variables, assignment, checked add, subtract and multiply, comparisons and `!`.  Calls, storage access and the operators of `Arithmetic` are not part of the statement language; `&&` and `||` evaluate both sides in this compiler.
- Analysis.Resolve: a declaration whose name is taken pushes nothing in the compiler, which reports an error and goes on; here names are resolved before control flow is analysed.
- Variables are already numbered when control flow is analysed; scopes are modelled in `Symtable` on their own.
- Multiple return values, destructuring and `delete` statements.  Whether a `return` has as many values as were declared is only checked by the compiler where values are given, and not part of the model.
- Assignment to reference-type variables, which rebinds the variable while compiling.
- A function with a return value that has no name and whose end is reachable: the compiler panics on it, so `Compiler.Compilable` excludes it.
- Compiler.CompileCorrect: leaves out functions with a return value and a bare `return`, on which code and source disagree as `FunctionReturns.BareReturnLosesValue` shows; for those only `FunctionReturns.EveryReturnHasValue` and the results on blocks and jumps apply.
- No expression has the type `Unreachable` in this compiler, so expression statements always count as reachable.
- Variables live in one store; the order of stack slots is not modelled.

Storage
- The hash of a key is symbolic: different keys have different hashes, and hashed keys differ from slot numbers.  Adding to the low word of a key or slot does not wrap.
- Fixed-size arrays in storage values, arrays whose elements take more than one word, and mappings.
- Storage.ContractStorage.Subscript: one-word elements only.

Arithmetic and memory
- Constant operands, for which the compiler emits no range check (src/irgen/binary.rs:818-827).
- Memory.Heap.ArraySlice: says what a slice holds only as long as the heap has room for it, because the allocator has no check of its own; `Memory.InHeapExactly` says when that is.
- `fields_concat`, the memory comparisons, hashing and signatures.

Compile-time algorithms
- Diagnostics are not modelled beyond whether an evaluator or a walk fails.
- CallGraph.Contract.AddExternalFunctions: no function is located at `Builtin`, and every call is to a function that exists.
- SourceFile.New: works on bytes; in UTF-8 a newline byte is always a newline character.
- Symtable.Table.LeaveScope: the outermost scope is never closed.
- Register allocation, instruction selection, ABI encoding, the parser and type checking.
