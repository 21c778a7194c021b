# Nibble: a verified model of the compiler's core algorithms

Nibble is a compiler for a C-like language. This project models the algorithms of the compiler that carry an
invariant of their own, and proves what each of them is for:

- **Boolean lowering** (`ShortCircuitIR`, `ShortCircuitGraph`, `ShortCircuitProof`, `ScJmpLists`, `Lowering`,
  `LostJumps`, `LostThird`, `ShortCircuitSpec`, `LoweredCode`, `ShortCircuit`): `&&`, `||`, `!` and comparisons become blocks and jumps
  without targets, which wait in linked lists with a freelist, are merged, inverted in place and patched later. Running
  the emitted blocks reaches the requested block exactly when the tree has the requested value, and evaluates exactly
  the leaves short-circuit evaluation would, in order, for exactly the trees on which the removal loop loses no jump;
  with the loop repaired, for every tree. For every tree each leaf is emitted once, with one compare and one branch.
- **Jump threading** (`JumpThreading`): which blocks the pass removes is known at its start; it keeps every execution,
  and the predecessor lists stay the inverse of the successor relation; its jumps stay inside the procedure exactly when every
  cycle of blocks that it removes is cut off from the rest.
- **Switches** (`SwitchCases`, `SwitchDispatch`): quicksort and the overlap scan; binary search and the
  subtract/compare/table form choose the same, right case.
- **Definite return** (`DefiniteReturn`): the resolver accepts exactly the statements in which nothing is wrong at any
  place, and its flags are held against a semantics of statements.
- **Floating-point printing** (`Numerals`, `DecimalFloat`): the exact decimal expansion of a double in the format of
  section 3.4 of IEEE 754-2008, the bound on its digit buffer, and rounding as roundTiesToEven of section 4.3.1 of
  IEEE 754-2008.
- **Hash table and interning** (`HashMap`, `Interning`): open addressing against a mathematical map, and hash-consing
  for any hash function.
- **Paths** (`PathNorm`): normalising in one buffer against split, fold and join.
- **Imports** (`ImportGraph`): the depth-first walk over imported files.
- **Layout and data** (`DataLayout`, `DataSection`): struct and union layout, and the bytes and relocations of
  initialised globals.
- **String escapes** (`StringEscapes`): writing a string with escapes, and scanning it.
- **Arena allocator** (`Arena`): allocations, undoing the last one, snapshots.

`Basics` holds what the modules share. Code that changes state is modelled as classes and methods over arrays and
fields, and tied to functions on values; the laws are lemmas about those functions. A procedure's blocks are numbered,
and a pointer to a block or to an instruction is its number. Growing arrays are fields of type `seq`. Integers are
unbounded unless a width matters; it is written out where it does (64-bit words in comparisons and switches, 32-bit
case ranges, the binary64 encoding).

## Where the code does not do what it says

- The loop that removes short-circuit jumps with the opposite value takes the successor as predecessor
  (`src/bytecode/procs.c:1742-1743`), so it unlinks correctly only at the head of the list. `RemoveOpposite` is the loop
  as written: it leaves the filter stated at `src/bytecode/procs.c:1730` if and only if no jump past the first has the
  opposite value, and otherwise the last jump of the list is lost. The condition can be read off the tree
  (`RemovalsAtHead`). What the program does with any tree, in order or not, is the total function `LowerCond` (or
  `LowerBool`), where a loop over a list does n rounds at most; for every n that is enough for a list in order,
  `ProcessCfgCond` proves its result right if and only if `RemovalsAtHead` holds, and otherwise an emitted jump is left
  without a target (`Forgotten`), out of reach of every list, and stays so (`ForgottenStays`). `a || (b && c) || d` is
  such a tree: `ThirdStaysOpen` gives the blocks it is lowered to, where the jump of `c` has no target and that of `b`
  goes past `d`. With the predecessor advanced only past nodes that stay (`RemoveOppositeRepaired`, chosen by the
  constant `repaired`) every tree is right.
- A comparison without any jump is turned into a value without looking at its polarity
  (`src/bytecode/procs.c:938-943`). `EmitBoolValue` proves the value right if and only if the tree has a jump or
  positive polarity; otherwise it is the negation.
- `f64str_round` with rounding digit zero reads the byte in front of the buffer (`src/print_floats.c:268`) and
  overwrites its own carry (`src/print_floats.c:282-283`). `Format` proves the output right if and only if the
  rounding digit is not the first one or the right answer is zero anyway.
- A block that only jumps to itself, and to which another block jumps, is removed while the other block's jump to it
  stays (`src/bytecode/procs.c:4172-4245`); the same happens to longer cycles, which shrink to one block.
  `RmDeadBBlocks` proves that all jumps lead to blocks of the procedure afterwards if and only if every cycle of removed
  blocks has no predecessor outside the cycle. `for (;;) {}` compiles to blocks for which it fails
  (`EndlessLoopNotCutOff`).
- Case ranges are cut to 32 bits (`src/bytecode/procs.c:3937-3938`): the two ways of choosing a case agree on all
  values if and only if the span of the cases is below 2^32.
- A `for` loop without a condition is not reported as returning although it cannot end otherwise
  (`src/resolver/stmts.c:383-439`): `EndlessLoopNotReported`. The report about a loop is exact if and only if it has a
  condition or its body can break (`ForExactIff`), and where this holds of all loops the analysis is exact. The flag of
  a whole body is exact if and only if it is set or the body can fall off its end, which can be read off it
  (`ReturnsExactIff`).
- `cstr_ncmp` stops at a NUL byte (`src/cstring.c:84`), so identifiers of one length that agree up to their first NUL,
  and whose 64-bit hashes collide, would be one object for the intern table: `SameIdentPastNul`. The lexer produces no
  identifier with a NUL, and without one the comparison is equality.
- The data section takes the alignment of its first variable (`src/x64_gen/data.c:214-218`). Every variable is aligned
  at every place the section may be loaded if and only if no variable is aligned more strictly than the first.
- `%.2x` prints a `char` of 128 and above as eight digits where `char` is signed (`src/cstring.c:229-230`), and the
  scanner reads two of them. The round trip holds if and only if the extra character to escape is ASCII or absent.

## Model

| member | source | states |
|---|---|---|
| ShortCircuitIR.OppositeComplements | src/bytecode/procs.c:82-86 | The table of opposite integer conditions complements each condition on all pairs of words, and is its own inverse |
| ShortCircuitGraph.PatchKeeps | src/bytecode/procs.c:256-277 | Patching a waiting jump keeps predecessor lists the exact inverse of the jumps, and every compare feeding one jump only |
| ShortCircuitGraph.SetCondKeeps | src/bytecode/procs.c:895-904 | So does inverting a compare in place |
| ShortCircuitGraph.CondJmpKeeps | src/bytecode/procs.c:635-654 | So does emitting a conditional jump whose true path is open |
| ShortCircuitGraph.JmpKeeps | src/bytecode/procs.c:656-669 | So does emitting an unconditional jump |
| ShortCircuitGraph.CondJmpAsPatch | src/bytecode/procs.c:3774-3779 | A jump emitted with both targets is the one emitted open and patched at once |
| ShortCircuitProof.ComposeRuns | src/bytecode/procs.c:1673-1793 | A run in a region, resumed after its open jumps were patched and more blocks were emitted, is the run of the larger graph |
| ShortCircuitProof.LeafLowered | src/bytecode/procs.c:1662-1666 | An emitted compare decides its leaf, with the polarity recorded for it, and evaluates that leaf only |
| ShortCircuitProof.FlipLowered | src/bytecode/procs.c:895-904 | Inverting the final compare together with its recorded result keeps what the jumps decide |
| ShortCircuitProof.JumpLowered | src/bytecode/procs.c:917-921 | Giving the final compare an open jump to a new block keeps what the region decides |
| ShortCircuitProof.NegateLowered | src/bytecode/procs.c:2354-2366 | Logical not: reversing the meaning of all jumps decides the negated tree with the same leaves |
| ShortCircuitProof.SplitRouted | src/bytecode/procs.c:1724-1728 | With its final jump in the list, the left operand leaves by the list or falls through to the next block, by its value |
| ShortCircuitProof.PatchRouted | src/bytecode/procs.c:1737-1740 | Patching a listed jump to where its result goes and dropping it from the list keeps the routing and forgets no open jump |
| ShortCircuitProof.CombineLowered | src/bytecode/procs.c:1760-1793 | The left operand's remaining jumps and the lowered right operand together decide the conjunction or disjunction |
| ShortCircuit.ProcBuilder.AllocBBlock | src/bytecode/procs.c:221-230 | A new block is empty, unreached and the last one; the graph invariants hold |
| ShortCircuit.ProcBuilder.PatchJmpTarget | src/bytecode/procs.c:256-277 | Sets the true path and records the predecessor; the graph invariants hold |
| ShortCircuit.ProcBuilder.CmpToZero | src/bytecode/procs.c:1273-1300 | Compares a computed value with zero, in a compare that decides the value with the given polarity |
| ShortCircuit.ProcBuilder.FixScJmpPath | src/bytecode/procs.c:895-904 | Makes the final jump mean the desired result by inverting its compare when needed; the tree stays lowered |
| ShortCircuit.ProcBuilder.CopyScJmp | src/bytecode/procs.c:906-924 | Fixes a jump to the desired result and emits it if it was not; the tree stays lowered |
| ShortCircuit.ProcBuilder.EmitExpr | src/bytecode/procs.c:1638-1666 | Any boolean tree: exactly if no removal loses a jump (or the loop is repaired), a lowered comparison whose waiting jumps are in a list and whose results and polarity can be read off the tree, and the state is what the program gives; else the program goes on to a state where an emitted jump is out of reach of all lists, those of callers included |
| ShortCircuit.ProcBuilder.EmitNot | src/bytecode/procs.c:2346-2378 | Logical not of a lowered tree, with its list flipped in place, or of a computed value; the same when a jump gets lost |
| ShortCircuit.ProcBuilder.EmitLeftOperand | src/bytecode/procs.c:1703-1758 | The left operand: jumps with the short-circuit value wait in the list, everything else leads to the right operand, exactly if the list the tree gives has opposite values at its head only; else the jump that is lost is on no list, nor on one of a caller |
| ShortCircuit.ProcBuilder.ListLeft | src/bytecode/procs.c:1721-1744 | The final jump joins the list and the opposite ones leave it, with the loop as written or repaired; the state is what the program gives in both cases |
| ShortCircuit.ProcBuilder.RemoveOpposite | src/bytecode/procs.c:1730-1744 | The loop as written, on the nodes and the freelist: patches the opposite jumps, and leaves the filtered list if and only if none past the first is opposite; otherwise neither the list, nor the freelist, nor a list of a caller leads to the last jump |
| ShortCircuit.ProcBuilder.RemovalLoop | src/bytecode/procs.c:1734-1744 | The rounds of it: every link, the freelist and the list variable afterwards, and which jumps are patched |
| ShortCircuit.ProcBuilder.RemoveOppositeRepaired | src/bytecode/procs.c:1730-1744 | With the predecessor advanced only past nodes that stay, the loop leaves the stated filter for every list |
| ShortCircuit.ProcBuilder.EmitShortCircuitCmp | src/bytecode/procs.c:1673-1793 | Logical and / or is lowered, with a final jump to the false path and both lists joined, exactly if no removal loses a jump; a jump lost in the right operand is not on the list of the left one either |
| ShortCircuit.ProcBuilder.EmitOperand | src/bytecode/procs.c:1724-1757 | An operand with a final jump, emitted or inverted to be taken on the desired value, exactly if no removal loses a jump |
| ShortCircuit.ProcBuilder.NewDeferredScJmp | src/bytecode/procs.c:826-854 | Appends a jump to a list in the first free node or a new one; lists in use, and the freelist, stay apart |
| ShortCircuit.ProcBuilder.DelDeferredScJmp | src/bytecode/procs.c:856-873 | What unlinking with a given predecessor does to the list, its ends and the freelist |
| ShortCircuit.ProcBuilder.MovDeferredScJmpList | src/bytecode/procs.c:875-893 | The list of the right operand behind that of the left |
| ShortCircuit.ProcBuilder.FlipScJmps | src/bytecode/procs.c:2357-2362 | Reverses the result of every jump of the list and changes nothing else |
| ShortCircuit.ProcBuilder.PatchWithResult | src/bytecode/procs.c:957-961 | The first pass over the list patches the jumps to the true path and leaves the others waiting |
| ShortCircuit.ProcBuilder.PatchRemaining | src/bytecode/procs.c:977-981 | The second pass over the same list patches the others, after which none waits |
| ShortCircuit.ProcBuilder.PatchScJmps | src/bytecode/procs.c:3784-3787 | Following the list, patches every waiting jump by its result; afterwards no jump of the region is open |
| ShortCircuit.ProcBuilder.ProcessCfgCond | src/bytecode/procs.c:3758-3801 | Main result: what the program gives, for every bound on its rounds that is enough for lists in order, is right if and only if every removal loop meets opposite jumps at the head only (or is repaired): for every start state and leaf values running from the header reaches jmpBB if the tree evaluates to jmpResult and else the returned block, after evaluating exactly the leaves short-circuit evaluation does, in order, with no jump left open and older blocks unchanged; and otherwise some jump of the condition has no target and is on no list, nor on one of a caller. In either case the header and the new blocks get one leaf each, its evaluation, compare and branch, and the returned block is empty |
| ShortCircuit.ProcBuilder.EndCond | src/bytecode/procs.c:3764-3798 | The final jump is inverted and patched or created, and the waiting ones patched; the state is what the program gives |
| LoweredCode.ExprOutline | src/bytecode/procs.c:1638-1793 | Lowering any tree, whatever the lists hold, emits each leaf once, from left to right, one to a block, with one compare and one branch each, and nothing else; a tree that is one leaf lacks its branch, and a computed one its compare |
| LoweredCode.CondCode | src/bytecode/procs.c:3758-3801 | A condition becomes one block for each leaf, that evaluates, compares and branches once, and one empty block, which is returned; the code of all other blocks keeps its kinds of instructions |
| LoweredCode.BoolCode | src/bytecode/procs.c:926-1001 | A tree with a jump as a value: the same blocks of leaves, then the block that loads true, the one that loads false, and the one that merges them; one compare gets no more code |
| ShortCircuit.ProcBuilder.ExecuteDeferredCmp | src/bytecode/procs.c:926-1001 | Turns a lowered tree with a jump, or of positive polarity, into a register that holds its value; no jump of the tree stays open and older blocks keep their code |
| ShortCircuit.ProcBuilder.EmitBoolValue | src/bytecode/procs.c:926-1001 | What the program gives leaves no jump open and older blocks unchanged if and only if no removal loses a jump (or the loop is repaired); then the register holds the value of the tree if and only if the tree has a jump or positive polarity, and else the negation |
| ShortCircuitSpec.HoldsOne | src/bytecode/procs.c:938-943 | A register cannot hold the value of a tree and of its negation |
| ScJmpLists.LoopResult | src/bytecode/procs.c:1734-1744 | What the links are after the loop: the filtered list exactly if no jump past the head is opposite; otherwise neither the list nor the freelist leads to the last node |
| ScJmpLists.LostAfter | src/bytecode/procs.c:1742-1743 | After removing a node past the head the list runs into the freelist and its last node is lost |
| ShortCircuitSpec.RemovalsNotAtHead | src/bytecode/procs.c:1730-1744 | Lowering `a` or (`b` and `c`) or `d` runs the loop on a list with the results true, false and true, of which the second is to go; so the tree fails the condition |
| ScJmpLists.ThirdLost | src/bytecode/procs.c:1731-1744 | On any list with these results the loop does not leave the first and the third jump, and loses the third |
| LostJumps.HiddenRemove | src/bytecode/procs.c:1731-1744 | Any further removal loop, on any list in order or not, leaves a jump that nothing leads to without a target and out of reach |
| LostJumps.HiddenConds | src/bytecode/procs.c:3784-3787 | So does the loop of the consumer, however long it follows a spoilt list |
| LostJumps.HiddenExpr | src/bytecode/procs.c:1673-1793 | So does lowering any tree in another block |
| LostJumps.GoneOuter | src/bytecode/procs.c:1760-1793 | What is lost in the right operand stays lost when its list joins that of the left operand |
| LostJumps.GoneCond | src/bytecode/procs.c:3758-3801 | A jump lost while a condition is lowered has no target when the condition is done |
| LostJumps.GoneBool | src/bytecode/procs.c:926-1001 | Nor when the tree is turned into a value |
| LostJumps.ForgottenStays | src/bytecode/procs.c:1673-1793 | Nor after any tree that is lowered later in an open block |
| LostThird.ThirdStaysOpen | src/bytecode/procs.c:3758-3801 | The whole lowering of `a` or (`b` and `c`) or `d` as a condition, to the blocks it ends with: the jump of `c` has no target, and that of `b` is patched twice |
| LostThird.RunsNowhere | src/bytecode/procs.c:1734-1744 | When `a` fails and `b` and `c` hold, running these blocks takes the jump without a target |
| LostThird.LastIsSkipped | src/bytecode/procs.c:1734-1744 | When `a` and `b` fail, it arrives where the tree is false without evaluating `d`, which decides the tree |
| ScJmpLists.NewKeeps | src/bytecode/procs.c:826-854 | Taking a free node for one list keeps all lists and the freelist disjoint and in order |
| ScJmpLists.DelKeeps | src/bytecode/procs.c:856-873 | Unlinking a node with its right predecessor keeps the list without it, and puts it on the freelist, with everything else in use untouched |
| ScJmpLists.MovKeeps | src/bytecode/procs.c:875-893 | Joining two lists keeps their jumps in order, and everything else in use |
| JumpThreading.ThreadedSameRuns | src/bytecode/procs.c:4172-4225 | Threading one jump-only block keeps the observable executions from the start block, in both directions, for every oracle of conditions |
| JumpThreading.ThreadedSane | src/bytecode/procs.c:4203-4244 | It keeps predecessor lists (as multisets) the inverse of the jumps, whatever the block jumps to |
| JumpThreading.EmptyRemoved | src/bytecode/procs.c:4157-4160 | An empty block can go: the invariant stays, and so does whether cycles are cut off and whether a jump leads out |
| JumpThreading.ProcBlocks.CanRemove | src/bytecode/procs.c:4184-4201 | A block may go exactly when no predecessor falls through to it |
| JumpThreading.ProcBlocks.RedirectPreds | src/bytecode/procs.c:4203-4225 | Every predecessor jumps to the target instead, which gets it as a predecessor, also when the block is its own target |
| JumpThreading.ProcBlocks.RemovePred | src/bytecode/procs.c:4227-4240 | The removed block leaves the target's predecessors, once; the first one goes if it is not there |
| JumpThreading.ProcBlocks.ThreadBlock | src/bytecode/procs.c:4203-4240 | One removal keeps the invariant and what stays of the others; all executions are kept as long as cycles are cut off, and otherwise they stay uncut until a jump leads out |
| JumpThreading.ProcBlocks.RmDeadBBlocks | src/bytecode/procs.c:4150-4249 | Main result: the whole backward pass takes out exactly the blocks that were empty or only jumped, were jumped to and not fallen through to, so that none such is left, and reports exactly whether one that only jumps went; the blocks that stay keep their instructions and may only skip blocks that only jump; the predecessor lists stay the inverse of the jumps; all jumps lead to blocks of the procedure afterwards if and only if every cycle of removed blocks is cut off, and then all executions from the start block are kept |
| JumpThreading.TracedThread | src/bytecode/procs.c:4203-4244 | Which blocks go does not change while the pass goes on: a block still there is to be kept exactly if it was at the start |
| JumpThreading.ShortenedOn | src/bytecode/procs.c:4208-4221 | Every jump leads where it led, or further along blocks that only jumped, and a fall-through leads where it led |
| JumpThreading.CutOffSame | src/bytecode/procs.c:4172-4244 | Removing a block that does not jump to itself leaves the cycles as cut off as they were |
| JumpThreading.SelfJump | src/bytecode/procs.c:4203-4244 | Removing a block that jumps to itself changes nothing else if nothing else jumps to it, and else leaves a jump to it |
| JumpThreading.BrokenStays | src/bytecode/procs.c:4203-4244 | A jump that leads out of the procedure is never put right by the rest of the pass |
| JumpThreading.EndlessLoopNotCutOff | src/bytecode/procs.c:3994-4024 | The blocks of an endless loop with an empty body satisfy the invariant and have a cycle that is not cut off |
| SwitchCases.QsortCases | src/resolver/stmts.c:221-232 | Sorts the range by start, as a permutation, and changes nothing outside it |
| SwitchCases.KeyRight | src/resolver/stmts.c:198-219 | Words compare as the numbers they stand for: in two's complement for a signed switch, else unsigned |
| SwitchCases.PartitionCases | src/resolver/stmts.c:198-219 | Splits around the middle element, as a permutation |
| SwitchCases.CheckOverlaps | src/resolver/stmts.c:342-361 | On sorted ranges the scan accepts if and only if they are pairwise disjoint |
| SwitchCases.DisjointPermuted | src/resolver/stmts.c:342-361 | Disjointness does not depend on the order of the ranges |
| SwitchCases.AcceptCases | src/resolver/stmts.c:341-361 | Cases are accepted if and only if the ranges as written are pairwise disjoint, and are then sorted |
| SwitchDispatch.FindCase | src/bytecode/procs.c:3866-3890 | Binary search finds the one range with the value, or says there is none, signed and unsigned |
| SwitchDispatch.BuildDispatch | src/bytecode/procs.c:3928-3948 | Builds the normalised table, the subtrahend and the bound |
| SwitchDispatch.RangeExact | src/bytecode/procs.c:3934-3939 | With a span below 2^32 the truncated ranges are the exact distances from the least case |
| SwitchDispatch.RangesTruncated | src/bytecode/procs.c:3934-3939 | Whatever the span, the table has one range for each case, with the distances from the least case modulo 2^32, and the bound is the exact span |
| SwitchDispatch.DispatchRight | src/bytecode/procs.c:3928-3959 | Then subtracting, comparing unsigned and the table choose the one range with the value, or the default, for every 64-bit value |
| SwitchDispatch.DispatchRightIff | src/bytecode/procs.c:3937-3938 | They do so for all values if and only if the span is below 2^32 |
| SwitchDispatch.ChooseCase | src/bytecode/procs.c:3866-3959 | From the cases as written: sorting, overlap check, and both ways of choosing agree |
| DefiniteReturn.FlagsSound | src/resolver/stmts.c:756-868 | If a statement is reported to return (or to exit the loop), no execution of it completes normally (or goes on in the block) |
| DefiniteReturn.BlockSound | src/resolver/stmts.c:18-55 | The same for a list of statements |
| DefiniteReturn.CasesSound | src/resolver/stmts.c:254-381 | The same for the cases of a switch |
| DefiniteReturn.FlagsExact | src/resolver/stmts.c:756-868 | Conversely, where every loop has a condition or a body that can break, a statement not reported to return has an execution that does not |
| DefiniteReturn.ResolveStmt | src/resolver/stmts.c:756-868 | The flag-passing resolver accepts a statement if and only if nothing in it is wrong, and then reports it to return, or to exit the loop, exactly if it is written so; its flags are the specified ones for every statement form |
| DefiniteReturn.AcceptedIff | src/resolver/stmts.c:254-868 | Main result: a statement is accepted if and only if at no place in it, found by any path of parts, something is wrong by itself: a failing check, a declaration where none may stand, a break or continue outside loops, a return that does not fit, a statement behind one that always leaves, a do-while whose body always leaves, a switch without cases |
| DefiniteReturn.ResolveBlockBody | src/resolver/stmts.c:18-55 | So does its loop over a statement list, with unreachable statements rejected |
| DefiniteReturn.ResolveSwitch | src/resolver/stmts.c:254-381 | So does the switch: returns only if all cases do and one is always taken |
| DefiniteReturn.ResolveProcBody | src/resolver/stmts.c:57-85 | A body is accepted if and only if nothing in it is wrong and it is written to return or the procedure has no result; an accepted procedure with a result returns a value on every execution; returning is reported if and only if it cannot fall off its end, where every loop has a condition or can break |
| DefiniteReturn.NeverFallsOff | src/resolver/stmts.c:57-85 | Main result: no execution of an accepted non-void procedure falls off its end, breaks out or returns nothing |
| DefiniteReturn.ReturnsIff | src/resolver/stmts.c:57-85 | Where every loop has a condition or a body that can break, the flag is set if and only if no execution falls off the end |
| DefiniteReturn.ReturnsExactIff | src/resolver/stmts.c:57-85 | For any accepted body the flag is exact if and only if it is set or the body can fall off its end |
| DefiniteReturn.FallsOffIff | src/resolver/stmts.c:57-85 | Whether some execution falls off the end can be read off the syntax |
| DefiniteReturn.CanEndExact | src/resolver/stmts.c:383-439 | How a statement can end without returning, in the semantics with any number of iterations, can be read off its syntax |
| DefiniteReturn.ForExactIff | src/resolver/stmts.c:383-439 | The report about an accepted for loop is exact if and only if it has a condition or its body can break |
| DefiniteReturn.EndlessLoopNotReported | src/resolver/stmts.c:383-439 | A loop without a condition that only returns is not reported to return, though it cannot complete normally |
| DecimalFloat.CustomFPNorm | src/print_floats.c:58-76 | Normalises the significand to 64 bits without changing the value |
| DecimalFloat.NextDouble | src/print_floats.c:78-109 | From one double to the next the absolute value that the bits denote grows by one unit in the last place, starting at zero |
| DecimalFloat.UnitsIncrease | src/print_floats.c:78-109 | The larger the bits without the sign, the larger the absolute value, subnormal numbers included |
| DecimalFloat.F64String.Double | src/print_floats.c:193-208 | Long doubling: the digits denote twice the number, with no leading zero and at most one digit more |
| DecimalFloat.F64String.Halve | src/print_floats.c:213-240 | Long halving: the digits and the point denote half the number, with remainder zero |
| DecimalFloat.F64String.DoubleTimes | src/print_floats.c:190-208 | All doublings: the significand times the power of two, within 316 digits |
| DecimalFloat.F64String.HalveTimes | src/print_floats.c:212-240 | All halvings: the significand over the power of two exactly, within 818 digits |
| DecimalFloat.FracDigitsBound | src/print_floats.c:212-240 | The digits after any number of halvings are at most 818, as significand times a power of five |
| DecimalFloat.IntDigitsBound | src/print_floats.c:190-208 | The digits after any number of doublings are at most 316 |
| DecimalFloat.F64String.F64ToStr | src/print_floats.c:136-243 | Main result: for every double the digits and point denote exactly its absolute value, with a nonzero first digit unless it is zero, inside the 1024-byte buffer |
| DecimalFloat.F64String.HasNonzeroDigit | src/print_floats.c:122-133 | Whether a digit behind the rounding digit is not zero |
| DecimalFloat.RoundingRule | src/print_floats.c:263-268 | Looking at the rounding digit, the digits behind it and the parity of the one before gives round-half-to-even |
| DecimalFloat.F64String.Increment | src/print_floats.c:269-286 | Adding one to the kept digits, with the carry of all nines lengthening the integer part |
| DecimalFloat.RoundedNumber | src/print_floats.c:245-290 | The rounded digits are the half-even rounding if and only if the rounding digit is not the first or the answer is zero |
| DecimalFloat.F64String.F64StrRound | src/print_floats.c:245-303 | Rounds to a precision: unchanged if no digit is discarded, half-even if the rounding digit is not the first |
| DecimalFloat.F64String.Format | src/print.c:191-238 | Main result: printing a finite double with a precision gives the half-even rounding of its exact value, and no other rounding is one, if and only if the scaled value is at least one or at most one half; and otherwise zero |
| DecimalFloat.FirstDigitNotRounded | src/print_floats.c:268-283 | For the double 0.75 and precision 0 the condition fails: the one right answer is 1 |
| HashMap.MaskIsMod | src/hash_map.c:78-130 | Masking with a capacity that is a power of two is the remainder |
| HashMap.HasEmpty | src/hash_map.c:120-124 | A table below the load limit has an empty slot |
| HashMap.NotFound | src/hash_map.c:158-175 | An empty slot on the way from a key's home means the key is not in the table |
| HashMap.PutKeeps | src/hash_map.c:129-146 | Writing an entry where the probe stopped keeps keys distinct and reachable, and adds the pair to the map |
| HashMap.HMap.Expand | src/hash_map.c:62-90 | Moving to a larger table of any power of two keeps the map, and its puts expand no further |
| HashMap.HMap.MoveEntries | src/hash_map.c:80-85 | The loop over the old slots puts every pair back |
| HashMap.HMap.Put | src/hash_map.c:116-149 | Main result: the table is the old map with the key set, for any hash function; it doubles exactly when six tenths would be reached |
| HashMap.HMap.Get | src/hash_map.c:151-176 | Main result: returns what the map holds for the key, if anything |
| Interning.AddKeeps | src/nibble.c:226-232 | Putting an object in front of its chain keeps all objects found under their hashes and no two matching |
| Interning.InternTable.FindObject | src/nibble.c:206-215 | Walking the chain finds the object that matches, or shows that none does |
| Interning.InternTable.Intern | src/nibble.c:199-235 | Returns the object that matches the request, or a new one with it, for any hash function |
| Interning.InternTable.InternAll | src/ast/module.c:1364-1437 | Main result: over any sequence of requests two get the same object if and only if they match |
| Interning.OneObjectEach | src/ast/module.c:1219-1268 | In a table without matching objects two requests share one if and only if they match |
| Interning.EqualRequests | src/ast/module.c:1370-1376 | Where the comparison is equality of components, matching is equality, whatever the hash |
| Interning.SameProc | src/ast/module.c:1404-1416 | The comparison of procedure types is equality of parameters, result and variadic flag |
| Interning.SameAggregate | src/ast/module.c:1226-1246 | The comparison of aggregates is equality of their field types and names |
| Interning.CstrNcmp | src/cstring.c:77-91 | Compares up to a NUL or to the given number of bytes; a shorter string ends with a NUL |
| Interning.IdentRequests | src/nibble.c:211-215 | Identifiers without NUL bytes match if and only if they are equal, whatever the hash |
| Interning.SameIdentPastNul | src/cstring.c:84-88 | Past a NUL they need not be |
| PathNorm.Path.Normalize | src/path_utils.c:61-159 | Main result: the in-place loop leaves what splitting, folding `.` and `..` and joining gives, for every path |
| PathNorm.Path.StepOver | src/path_utils.c:83-136 | One round keeps the fold of the unread input onto the written components; input not yet read is intact |
| PathNorm.Path.WriteParent | src/path_utils.c:103-116 | A parent above the start of a relative path is written, or left in place |
| PathNorm.Path.CopyComponent | src/path_utils.c:120-135 | A component is copied down, never past the read position |
| PathNorm.ResolveNormal | src/path_utils.c:88-136 | A resolved path has no empty or `.` component, and `..` only in front of relative paths |
| PathNorm.OneMoreComponent | src/path_utils.c:88-136 | A further component `.` or none changes nothing, a name goes deeper and `..` behind it comes back, `..` stays at the root and is kept above the start of a relative path |
| PathNorm.NormText | src/path_utils.c:128-159 | The normal form has one separator between components, one in front if absolute and none behind; the root is a lone separator, and the start of a relative path a dot |
| PathNorm.NormIdempotent | src/path_utils.c:61-159 | Normalising twice is normalising once, and keeps what the path resolves to |
| PathNorm.NormEqual | src/path_utils.c:61-159 | Two paths have one normal form if and only if both are absolute or both relative and they resolve alike |
| PathNorm.SplitJoin | src/path_utils.c:128-136 | Splitting undoes joining |
| PathNorm.Path.Append | src/path_utils.c:166-199 | Joins with one separator, or replaces the path by an absolute one, as `JoinedRight` says |
| PathNorm.JoinedRight | src/path_utils.c:166-199 | For every path and every one that is not absolute, the join is absolute exactly if the first is, resolves from where it does, starts with the first, ends with the second and has one separator between them; an absolute path replaces, and so does any an empty one |
| PathNorm.Path.MakeAbsolute | src/path_utils.c:335-354 | Gives the normal form of what the path resolves to from the directory |
| PathNorm.JoinedResolves | src/path_utils.c:335-354 | Joining then normalising is resolving the path's components from where the directory's end |
| PathNorm.AbsoluteIsNormal | src/path_utils.c:335-354 | The result is absolute and normal, and making it absolute again from anywhere changes nothing |
| ImportGraph.Compiler.ParseImportModule | src/compiler.c:846-860 | Returns a finished module or one on the stack, or fails for a chain of imports that is bad |
| ImportGraph.Compiler.ParseImports | src/compiler.c:917-980 | After the loop every import of the file is finished; it fails only for a bad chain |
| ImportGraph.Compiler.ParseModule | src/compiler.c:881-1069 | Parses a new file; what was finished or on the stack stays so; terminates on any finite set of files |
| ImportGraph.Compiler.ParseProgram | src/compiler.c:846-1069 | Main result: parsing from the main file succeeds if and only if every file in reach is sound and no chain of imports meets a file twice; then exactly the files in reach are parsed, once each, and finished after their imports |
| ImportGraph.FinishedMeansAcyclic | src/compiler.c:951-960 | A finishing order with imports first that holds the main file means no cycle is in reach |
| ImportGraph.CycleIsBad | src/compiler.c:957-960 | An import of a file still being parsed closes a cycle |
| DataLayout.AlignUpRight | src/basics.h:9 | The mask form rounds up to the next multiple of a power of two |
| DataLayout.CompleteStruct | src/ast/module.c:1270-1307 | Fields in order, each at the first aligned place behind the one before; the size is the least multiple of the strictest alignment that holds them |
| DataLayout.CompleteUnion | src/ast/module.c:1309-1346 | All fields at zero, and the least aligned size that holds each |
| DataLayout.StructUnique | src/ast/module.c:1270-1307 | These rules determine the layout |
| DataLayout.StructSmallest | src/ast/module.c:1270-1307 | No arrangement of the fields in this order with their alignments has a field further to the front, or a smaller size |
| DataLayout.UnionSmallest | src/ast/module.c:1309-1346 | No smaller aligned size holds every field of a union |
| DataLayout.NestedAligned | src/ast/module.c:1270-1346 | Main result: every member at any depth is inside the whole at an offset that fits its alignment, and sizes are multiples of alignments |
| DataLayout.NestedApart | src/ast/module.c:1270-1307 | Members on paths that part in a struct or an array share no byte |
| DataSection.LittleEndianReadsBack | src/x64_gen/data.c:19-28 | The bytes written for an integer read back as its value, cut to the size |
| DataSection.LittleEndianAt | src/x64_gen/data.c:19-28 | Byte i is the i-th digit of the value to the base 256 |
| DataSection.Section.SerializeInt | src/x64_gen/data.c:19-28 | The loop appends the low bytes of the value |
| DataSection.Section.InitVals | src/x64_gen/data.c:37-49 | The last initialiser for an element wins |
| DataSection.Section.SerializeArray | src/x64_gen/data.c:30-62 | Appends the image of an array and its relocations |
| DataSection.Section.SerializeStruct | src/x64_gen/data.c:64-98 | Appends the image of a struct, padding included, and its relocations |
| DataSection.Section.SerializeUnion | src/x64_gen/data.c:101-116 | Appends the image of a union and its relocations |
| DataSection.Section.Serialize | src/x64_gen/data.c:118-186 | Main result: for every well-typed constant exactly its type's size in bytes, each member's at the place the layout gives it and zeros elsewhere, and its relocations, which `RelocsIff` determines |
| DataSection.RelocsIff | src/x64_gen/data.c:128-166 | Main result: for every well-typed constant there is a relocation with an address and a place if and only if some path of fields and last initialisers leads to a pointer initialised with that address, or to that procedure, at the offset of this path |
| DataSection.RelocsSpread | src/x64_gen/data.c:118-186 | The relocations of an object are inside it, ascending, and do not overlap |
| DataSection.Section.AddDataItem | src/x64_gen/data.c:188-198 | Writes a variable at the next aligned place |
| DataSection.Section.InitDataSection | src/x64_gen/data.c:200-230 | Every variable's recorded offset is aligned, behind the one before, and has its image and relocations |
| DataSection.VarRelocsIff | src/x64_gen/data.c:200-230 | The section has exactly the relocations of the initialised pointers of its variables |
| DataSection.VarRelocsSpread | src/x64_gen/data.c:200-230 | They are in ascending order over the whole section, so each occurs once, and none overlaps another |
| DataSection.VarsApart | src/x64_gen/data.c:220-229 | No two variables share a byte |
| DataSection.SectionAligned | src/x64_gen/data.c:214-218 | Wherever the section is loaded at a multiple of its alignment all variables are aligned, if and only if none is stricter than the first |
| StringEscapes.PrintHex | src/print.c:71-176 | Prints a number in hexadecimal with at least the given digits |
| StringEscapes.CstrEscape | src/cstring.c:184-242 | Writes every character as itself or as its escape, as `EscapesWritten` says |
| StringEscapes.EscapesWritten | src/cstring.c:187-236 | By ASCII numbers: the twelve characters with a letter, and their letters; x and the digits of the number for other control characters and the extra one; every other character as it is |
| StringEscapes.PaddedDenotes | src/print.c:71-176 | The digits printed denote the number, without capitals, at least so many as asked for and otherwise without a zero in front |
| StringEscapes.Lexer.ScanHexEscape | src/lexer/module.c:306-346 | Reads one or two digits, or reports and reads none |
| StringEscapes.Lexer.ScanString | src/lexer/module.c:348-418 | Scans to the closing quote, the end of line or of text, with the errors and the position for each; what the characters are is in the four rows below |
| StringEscapes.LetterEscapes | src/lexer/module.c:381-392 | By ASCII numbers: what each of the twelve letters stands for behind a backslash; every other letter but x is reported |
| StringEscapes.HexEscapes | src/lexer/module.c:306-380 | x in either case and one or two digits in either case give their number; without a digit the error is reported and the word skipped |
| StringEscapes.WordEndRight | src/lexer/module.c:12-16 | A word is the letters, digits and underscores up to the first other character |
| StringEscapes.PlainScan | src/lexer/module.c:357-410 | Up to the first NUL, line feed, quote or backslash a string is read as it stands; what each of the first three makes of it |
| StringEscapes.CharReadsBack | src/lexer/module.c:360-395 | A written character is read back as one piece and the scan goes on behind it |
| StringEscapes.EscapeRoundTrip | src/cstring.c:184-242 | Scanning a quoted escaped string in any text gives it back without error and up to its closing quote, if and only if the extra character is ASCII or not in it |
| StringEscapes.LiteralRoundTrip | src/cstring.c:184-242 | Main result: for every string and extra character the quoted escaped literal can be scanned, and gives the string back without error if and only if the extra character is ASCII or not in it |
| Arena.Allocator.AllocMemBlock | src/allocator.c:47-73 | Pushes a block; everything live stays where it is |
| Arena.Allocator.MemAllocate | src/allocator.c:75-114 | The memory is aligned, inside a block and apart from everything live: at the first aligned place of the current block, which is kept, if and only if there is room, and else of a new block; it fails only if there is none and malloc fails |
| Arena.Allocator.MemFree | src/allocator.c:139-154 | Undoes the last allocation if it is this one, and keeps older snapshots valid, except one that still counted the freed allocation |
| Arena.Allocator.RestoreState | src/allocator.c:224-244 | From any state grown out of a snapshot, restoring gives exactly the snapshot's state, live allocations included |

## Left out

- Floating-point comparisons in boolean lowering: inverting one is not exact when an operand is NaN.
- Leaves of boolean trees beyond compares and opaque computed values: their own code is one instruction that records that the leaf was evaluated.
- ShortCircuit.ProcBuilder.EmitExpr: stops at the first removal that loses a jump; what the program does from there on is in the functions of `Lowering`, where a loop over a spoilt list is cut off after n rounds.
- The removal loop on the one-node list of a computed left operand, which the source skips: it finds nothing to remove.
- Switch predecessors and phi arguments in jump threading: the pass does not look at them either, and the theorem assumes that no phi names a removed block.
- Sorting and renumbering the blocks behind jump threading (`src/bytecode/procs.c:4370-4406`).
- JumpThreading.ProcBlocks.RmDeadBBlocks: what runs do when a jump leads out of the procedure.
- Switches with only a default case: the index arithmetic at `src/bytecode/procs.c:3868` assumes a range.
- The code emitted for the cases of a switch, loops and other statements.
- DefiniteReturn.ResolveStmt: expressions, declarations and scopes are reduced to whether they resolve.
- DecimalFloat.F64String.Format: precisions of 2^30 and above, where 32-bit sums wrap; infinities and NaN have no digits.
- DecimalFloat.F64String.F64StrRound: the padding branch at `src/print_floats.c:292-299`, which its guard makes unreachable; the byte in front of the buffer is a parameter.
- Literal parsing by the C library and the replacement for `ceil`.
- Failing allocation in the hash table and the intern tables, `hmap_clear`, tables without capacity, and keys of zero.
- The hash functions: any function to nonzero words is allowed.
- The layout of a newly interned type is in `DataLayout`, not in the intern table.
- StringEscapes.Lexer.ScanString: a text with a backslash right before a NUL byte, where the scan would step over the terminator (`src/lexer/module.c:378-386`); positions in error messages.
- Paths with embedded NUL bytes, `realpath`, and directory listing.
- PathNorm.Path.Append: the length may count the NUL only where `path_abs` does so.
- File reading and path lookup of imports: what a file holds and where an import leads are parameters, as is whether its symbols can be imported.
- Source layout of symbols in modules, name lookup and exports.
- Addresses of symbols and strings in the image: a pointer is zeros and a relocation; the read-only section.
- Sizes and offsets beyond 64 bits.
- `mem_reallocate`, `allocator_reset`, allocation without an arena, and footers as bytes: a block's footer is space that no other block may use.
- Register allocation, machine code, ELF output, linking, and the command line.
