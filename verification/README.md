# Dang, verified

Dang is a small bytecode virtual machine with an assembler, hand-written containers and threads that
talk through channels. This project models its core in Dafny and proves what that core is for: that
assembling a program preserves its meaning, and that the storage, scopes, containers and channels
under the machine keep their promises over every run.

Check it with `dafny verify dfyconfig.toml`.

## What is modelled

- **words, bytecode** – little-endian 64-bit words, the instruction set and its size table.
- **assembler** – layout, label resolution and emission of a parsed list of lines, as loops over an
  array of positions, a label table and a byte buffer.
- **machine, instructions** – the dispatch loop with control flow, literals, scopes and frames. An instruction that
  neither transfers control nor carries a literal is a parameter, a function from data to data. What each
  instruction does is also said byte by byte.
- **decoding, simulation, meaning** – that emitted code decodes to its lines as far as their operands
  survive; a machine that runs the lines themselves; the simulation between the two in both directions;
  and the one way the bytecode can fall short of the lines.
- **safety, threads** – a condition on the program text that rules that way out, and the same for whole
  processes: threads that start each other and share pooled objects, one instruction at a time in any
  order.
- **pool** – the handle pool: an ascending free list threaded through a growable array, contiguous
  runs, growth and release. Slot `h` of the array is handle `h`; slot 0 is not used.
- **refcounts** – pooled scalars and the data stack, reference by reference: the counts are compared
  with the number of holders on the stack, in the instruction's own array, in its locals and inside
  scalars in use. A second machine in which no scalar ever leaves use is what runs are measured by.
- **growth, stack, array** – `nextupow2`, the growing stack with what its copying costs, and the array
  as a window of scalar handles in a buffer that grows at both ends.
- **strings, hash, datastack, hashops, stringops** – string order, the 256 sorted chains as linked items,
  the map they stand for, and the instructions that move whole hashes and strings over the data
  stack. How other scalars convert to strings and numbers is a parameter.
- **scopes** – symbol tables as counted objects: frames, scopes, the registry, the collector and the
  end of a context.
- **symboltable** – symbol tables as search trees with links to parents: lookup through enclosing
  scopes, define, undefine. (One `symboltable_t` appears in these two modules with the fields that
  matter to each.)
- **channel** – the ring as it is stored, and a state machine with a log of calls and answers, in which
  every access to the ring is a step of its own, waits may wake for no reason, and a signal wakes any one
  waiter.

## Where the code departs from its intent

These are theorems of the model, with the code kept as it is.

- A branch to its own position, an FRCALL of its own position, or a RETURN directly behind a call that is
  reached inside that call's own activation (because it is what is called, or by recursion) makes the
  dispatch loop's assertion on the increment fail although the lines go on (vm.c:188;
  `Simulation.StallsExactlyAtSelfTransfer`, `Meaning.CallThenReturnStalls`, `Safety.RecursiveReturnStalls`).
- STR literals above 255 bytes are cut and SYMCLONE's operand is never written (assembler.y:344-354,
  400-415; `Decoding.ReadAsItStands`). The bytecode then behaves as the lines with what is left of their
  operands do (`Meaning.AssemblyPreservesMeaning`).
- POOL_RELEASE links the released handle to itself (pool.h:439; `Pool.Pool.AddToFreeList`, `Pool.Pool.Release`).
  The versions named InOrder read the scan as the matching one at pool.h:274.
- POOL_ALLOCATE_MANY leaves the free count alone when it finds a run and sets it to one less than the
  number of new handles left over when it grows; with none left over the list ends in a handle that
  does not exist (pool.h:269-324; `Pool.Pool.AllocateMany`).
- STACK_DUP and STACK_OVER pass the address of an item in a buffer that STACK_PUSH gives up exactly when
  the stack is full (stack.h:179, 186; `Stacks.Stack.Again`).
- symbol_undefine damages the tree, or writes through a null pointer, unless its condition holds, and
  leaves a promoted child with the wrong parent except at the top (symboltable.c:408-509;
  `SymbolTables.Table.Undefine`).
- POOL_ALLOCATE trusts a free count that POOL_ALLOCATE_MANY leaves wrong: with the count at zero it loses
  every handle still listed, with the list empty it fails an assertion (pool.h:201-241;
  `Pool.Pool.Allocate`).
- string_reserve copies from the start of the header, so a string that grows loses its last sixteen bytes,
  and string_append stores past the end of a buffer that holds the new bytes but not both
  (string.c:24, 55; `StringOps.MovedKeeps`, `StringOps.Buffer.Append`).
- END more than two calls deep leaves tables in the registry with references nobody gives up, so the
  collector never frees them and the loop that calls it never ends (vm.c:123-126, 238-246;
  `Scopes.Execute`, `Scopes.Registry.Collect`, `Scopes.CleanUp`).
- channel_tryread does not signal that there is space, and a writer that grows the ring when its time is up
  signals readers only (channel.c:153-179, 196, 205). Each of the two can leave a writer asleep beside free
  slots, and nothing else can (`Channels.WritersOversleepExactly`).
- CAT of no strings is an undefined value, so XPLOD and CAT lose the empty string
  (bytecode.c:1919-1960; `StringOps.XplodThenCat`).

## Model

| member | source | states |
|---|---|---|
| Assembler.Extent | assembler.y:246-249 | a line starts at or after the end of its predecessors and, past that, at most three padding bytes later |
| Assembler.StrLen | assembler.y:234-240 | a literal ends at its first zero byte, or with its buffer |
| Assembler.LaidOut | assembler.y:229-265 | how long the layout loop makes a line and where it puts it, in numbers |
| Assembler.EndBeforeMonotone | assembler.y:264-265 | lines are laid out in order without overlap: later lines end later |
| Assembler.DefinedAtFirst | assembler.y:159-197 | a label stands for the first line that defines it, and for none if no line does |
| Assembler.DefineLabel | assembler.y:251-262 | the label table after a line knows exactly the labels defined so far; a second definition is reported |
| Assembler.AlignUp | assembler.y:246-249 | the increment loop stops at the first position that is 3 modulo 4 |
| Assembler.LayOut | assembler.y:226-266 | the loop gives each line exactly its position, leaves a full label table, and reports whether all labels are unique |
| Assembler.CheckLabels | assembler.y:268-275 | true exactly when every label mentioned has a definition |
| Assembler.StoreWord | assembler.y:322-331 | a store leaves the value's bytes, least significant first, and changes nothing else |
| Assembler.StoreText | assembler.y:344-354 | a literal's length prefix keeps what its width holds, the bytes that follow are the literal's first ones, and nothing else changes |
| Assembler.EmitOperand | assembler.y:296-414 | a line's operand bytes become those its parameters and labels ask for, or the line is refused, exactly when its parameters are not of the kinds its instruction requires |
| Assembler.EmitLine | assembler.y:288-423 | a line becomes its opcode and operand at its position, and no byte outside it changes |
| Assembler.EmitAll | assembler.y:286-423 | the loop over all lines ends with every line in place, or refuses exactly when some line's parameters do not fit |
| Assembler.LineAtFrame | assembler.y:286-423 | an emitted line stays readable when bytes outside it change |
| Assembler.StartsAtMain | assembler.y:425-429 | the start is the position of the first line that defines main, and 1 if none does |
| Assembler.Assemble | assembler.y:226-466 | a program is assembled if and only if its labels are unique and defined and its parameters fit; the output is then its image, with END at both ends and NOOP in every gap, and the start is the label main's position or 1 |
| Words.LoadStored | bytecode.c:1628-1637 | loading a stored word gives the value modulo the word's span |
| Words.LittleEndian | assembler.y:322-331 | the bytes of a stored word are the digits of the value to the base 256, the least significant first |
| Words.ToInt32Wraps | vm.c:181-189 | the increment passes through an int: the same value modulo 2^32 |
| Words.SignedRoundTrip | bytecode.c:1628-1637 | a signed 64-bit literal survives being stored and loaded |
| Machine.Context.Turn | vm.c:178-192 | one turn of the dispatch loop does to the context's fields what one step of the specification does to their values |
| Machine.Context.Execute | vm.c:178-192 | the dispatch loop over any number of turns computes the run of the specification, stopping at END, a failed assertion or a zero increment |
| Machine.RunEnded | vm.c:178-192 | a run that has ended stays ended the same way |
| Machine.RunIsTurnByTurn | vm.c:178-192 | a run is a chain of turns from its first state, each from where the one before it came, up to the last or to one that ends it |
| Instructions.BytePushes | bytecode.c:1608-1617 | BYTE pushes the byte behind it, and moves on by two |
| Instructions.IntPushes | bytecode.c:1628-1637 | INT pushes the signed word behind it, and moves on by nine |
| Instructions.FloatPushes | bytecode.c:1969-1978 | FLOAT pushes the bits behind it, and moves on by nine |
| Instructions.StrPushes | bytecode.c:1782-1803 | STR pushes as many bytes as its one-byte prefix says, and moves on behind them |
| Instructions.StringPushes | bytecode.c:1820-1841 | STRING pushes as many bytes as its four-byte prefix says, and moves on behind them |
| Instructions.FunlitPushes | bytecode.c:2091-2100 | FUNLIT pushes a reference to the position behind it, and moves on by nine |
| Instructions.CallCalls | bytecode.c:102-113 | CALL pushes a frame that resumes nine bytes on, opens a scope and goes to its operand |
| Instructions.FrcallCalls | bytecode.c:1517-1531 | FRCALL takes a function off the stack and calls it, with a frame that resumes one byte on |
| Instructions.ReturnReturns | bytecode.c:184-200 | RETURN takes the top frame off, keeps the scopes it was pushed with and goes where it says |
| Instructions.JmpBranches | bytecode.c:391-394 | JMP goes as far as its operand says |
| Instructions.Jmp0Branches | bytecode.c:405-420 | JMP0 takes a value off and branches exactly on undefined, zero, the empty string and "0" |
| Instructions.JmpuBranches | bytecode.c:433-449 | JMPU takes a value off and branches exactly on undefined |
| Instructions.ParamsTaken | bytecode.c:130-142 | as many values as the count asks for are handed over, in their order, or the assertion fails |
| Instructions.CoroGoesOn | bytecode.c:125-177 | CORO starts a thread at its operand with the parameters, and goes on nine bytes further |
| Instructions.FrcoroGoesOn | bytecode.c:1543-1600 | FRCORO starts a thread at the function on the stack with the parameters below it, and goes on |
| Instructions.EndsAndNoops | vm.c:179-185 | END and the end of the bytecode halt, NOOP moves on by one |
| Instructions.DataOpMovesOn | vm.c:186-190 | every other instruction gets the operand that stands behind its opcode and moves on behind it |
| Decoding.AdvanceIsLength | make_instruction_table.pl:73-79 | the increment each instruction function computes for itself equals the length the assembler took from the generated size table, for every line |
| Decoding.AlignedPosition | assembler.y:246-249 | an aligned line stands at 3 modulo 4, and at the first such place its predecessors leave free |
| Decoding.PlainLineReadsBack | bytecode.c:1608-1649 | the operand of every instruction but the two string literals and SYMCLONE is read back as the line stated it |
| Decoding.CutLineReadsBack | bytecode.c:1782-1841 | the operand of a string literal is read back as the part its length prefix counts, that of SYMCLONE as the identifier that eight NOOPs spell |
| Decoding.ArgAsRead | assembler.y:344-415 | of every line exactly the operands that survive assembly are the same in the program as read |
| Decoding.ReadAsItStands | assembler.y:344-415 | the program as read is the program if and only if every STR literal has at most 255 bytes and every SYMCLONE asks for what its unwritten operand spells |
| Decoding.DecodesBack | assembler.y:286-423 | each instruction of an image decodes to the line as read, which is its source line if and only if the line is representable |
| Decoding.NumbersInTheirTerms | assembler.y:298-414 | of a line with numbers the machine reads those parameters, reduced to the width they are stored in |
| Decoding.TextsInTheirTerms | assembler.y:344-364 | of a string literal it reads the bytes before the first zero byte, for STR only as many as that number modulo 256 |
| Decoding.LabelsInTheirTerms | assembler.y:309-377 | of a label it reads the position of the first line that defines it |
| Decoding.PaddingIsNoops | assembler.y:277-282 | from where the machine stops reading a line, a cut literal included, to the next line or the closing guard there are only NOOPs |
| Decoding.SweepIsListing | vm.c:178-192 | stepping through any image from byte 1 by the machine's own instruction lengths lists exactly the instructions of the program as read, NOOPs aside; of the program itself when its operands survive |
| Simulation.AddressInCode | assembler.y:309-320 | every target of a transfer denotes its line and lies within the code |
| Simulation.TruthRelated | scalar.c:390-419 | a function value is true wherever the assembler placed it, so branches go the same way |
| Simulation.CallRelated | bytecode.c:102-113 | CALL, FRCALL and RETURN on related states leave related states: return addresses denote the line after the call |
| Simulation.BranchRelated | bytecode.c:391-449 | the branches take the same way on both sides, and their offsets lead to the target's position |
| Simulation.CoroRelated | bytecode.c:125-147 | CORO and FRCORO on related stacks start threads at the same line with related parameters, in the order they had, and leave related stacks, or fail on both sides |
| Simulation.PerformRelated | vm.c:186-190 | every instruction, executed on related states, leaves related states or fails on both sides |
| Simulation.InstructionStep | vm.c:178-192 | one turn at an instruction matches one step of its line; the machine stalls exactly when the instruction transfers to itself |
| Simulation.PaddingStep | vm.c:183-185 | a NOOP before a line or before the closing guard is a stutter of the bytecode |
| Simulation.FloatingStep | assembler.y:229-232 | a floating label is a stutter of the lines |
| Simulation.GuardStep | assembler.y:283-284 | running off either end meets the END guards on the one side and halts on the other |
| Simulation.RunMatched | vm.c:178-192 | every run of the bytecode, of any length, is matched by a run of the lines |
| Simulation.RunReflected | vm.c:178-192 | every run of the lines, of any length, is matched by a run of the bytecode that comes as far, unless that stalls |
| Simulation.StallsExactlyAtSelfTransfer | vm.c:188 | the assertion that an increment is not zero fails in some run if and only if the run of the lines reaches an instruction that transfers to its own address |
| Meaning.StartDenotes | assembler.y:425-429 | the start address denotes the line of the label main, or the first line |
| Meaning.AssemblyPreservesMeaning | vm.c:156-192 | for every accepted program that fits an int, a thread that enters the bytecode and never stalls behaves as the lines as read do: runs match both ways with related stacks, scopes, store and frames, so one halts or fails if and only if the other does |
| Meaning.CallThenReturnStalls | bytecode.c:184-200 | a two-line accepted program whose lines halt but whose bytecode trips the zero-increment assertion: a call followed at once by the RETURN it calls |
| Meaning.PlainOpsRelated | bytecode.c:821-853 | the stack shuffles and the reading and writing of pooled scalars meet what the simulation assumes of data instructions |
| Meaning.PlainOpsAre | bytecode.c:821-853 | what the spelled-out data instructions do to stack and scalars, item by item, and when they fail |
| Safety.NoSelfTransfer | vm.c:188 | under a condition on the program text no careful state transfers to itself |
| Safety.NestedReturn | bytecode.c:184-200 | a return goes on past the call in the activation that made the call |
| Safety.StaysCareful | bytecode.c:184-200 | in every run each activation has come to where it is from an entry of the call that started it, within itself, and function values stay among the known functions |
| Safety.SafeProgramsKeepTheirMeaning | vm.c:156-192 | if no branch names its own position, no function an FRCALL, and no RETURN that starts where a call ends can be reached inside that call's own activation, the bytecode never stalls and runs match both ways |
| Safety.TailCallIsSafe | bytecode.c:184-200 | a call of another function directly followed by a RETURN meets the condition |
| Safety.RecursiveReturnStalls | bytecode.c:184-200 | a function that calls itself directly before its RETURN does not, and from two values on the stack its bytecode stalls while the lines halt |
| Safety.PlainOpsHarmless | bytecode.c:821-853 | the data instructions spelled out make no function values of their own |
| Threads.TurnIsStep | bytecode.c:125-177 | a turn of one thread is its own step with the shared objects put in; other threads stay, and CORO and FRCORO add one thread with its start, parameters, scope and frame |
| Threads.ChildrenRelated | bytecode.c:125-177 | the thread that an instruction starts enters the bytecode at the position of the line it enters over the lines, with related parameters |
| Threads.InstructionTurn | vm.c:178-192 | one thread's turn at an instruction leaves related processes, or stalls exactly when the instruction transfers to itself |
| Threads.ScheduleMatched | vm.c:178-192 | every schedule of the bytecode's threads is matched by a schedule of the threads over the lines; a stall, by a transfer to its own address |
| Threads.ScheduleReflected | vm.c:178-192 | every schedule of the threads over the lines is matched by a schedule of the bytecode's threads, unless that stalls |
| Threads.StartsRelated | vm.c:99-103 | a process starts with one thread at the entry point, related on both sides |
| Threads.ProcessesKeepTheirMeaning | vm.c:156-192 | any number of threads that share pooled objects, start each other and take turns in any order mean the same over bytecode and lines: schedules match both ways; some schedule stalls if and only if in some schedule a thread over the lines comes to a transfer to its own address |
| Threads.SafeProcessesKeepTheirMeaning | vm.c:156-192 | under the condition on the program text no schedule stalls, and every schedule of either side is matched |
| Pool.WalkListsFree | pool.h:405-431 | walking the links of an exact list from a free handle lists the free handles from there on, ascending |
| Pool.ExactListIsFreeHandles | pool.h:129-162 | an exact list is the strictly ascending, zero-terminated list of just the free handles, and as long as there are free handles |
| Pool.Pool.constructor | pool.h:129-162 | POOL_INIT leaves an exact list of all handles and the right free count |
| Pool.Pool.Allocate | pool.h:197-264 | on any exact list, whatever the free count says: a handle is had and the list stays exact with every free handle if and only if the count is zero just when nothing is free; it fails its assertion exactly when the count is not zero but nothing is free; the handle was not in use and every object in use is kept |
| Pool.Pool.AllocateListed | pool.h:201-213 | with a handle free, the lowest one is taken off the list |
| Pool.Pool.AllocateGrown | pool.h:214-241 | the pool doubles, its old objects are kept and the new handles but one are linked in order; handles that were free before drop off the list |
| Pool.FreshTail | pool.h:233-240 | a list that starts behind the first new handle is exact just when nothing was free before |
| Pool.Pool.Reference | pool.h:359-371 | one more reference, and nothing else |
| Pool.Pool.AddToFreeList | pool.h:433-454 | as written, releasing a handle links it to itself and never reaches the head |
| Pool.SelfLinkNeverExact | pool.h:433-454 | a handle linked to itself is part of no exact list |
| Pool.Pool.Release | pool.h:373-403 | as written, POOL_RELEASE keeps an exact list exact if and only if the reference dropped was not the last |
| Pool.HandleAdded | pool.h:441-450 | linking a handle in behind the nearest free one below it, or at the head, keeps the list exact and adds just that handle |
| Pool.Pool.AddToFreeListInOrder | pool.h:433-454 | with the scan going down past handles in use, the released handle joins an exact list at its place |
| Pool.Pool.ReleaseInOrder | pool.h:373-403 | with that scan, release keeps the list exact and the free count as right as it was; the handle leaves use exactly with its last reference |
| Pool.Pool.FindFreeSequence | pool.h:405-431 | terminates with the lowest start of a run of free handles, or zero only if there is no run or no more free handles are counted than asked for |
| Pool.NoRunAcross | pool.h:414-424 | no run reaches over a handle in use, so the scan may restart behind it |
| Pool.ScanUsed | pool.h:415-419 | restarting at the free handle linked after the last one seen misses no run |
| Pool.RunTaken | pool.h:273-283 | linking past a run takes exactly the run out of an exact list |
| Pool.Pool.AllocateRun | pool.h:269-284 | a run that was found leaves the list, comes into use blank, and everything else is kept; the free count is not touched |
| Pool.RunBeyond | pool.h:306-323 | after growth the list is exact if and only if a new handle is left over |
| Pool.Pool.AllocateBeyond | pool.h:285-324 | growth by whole multiples: where the run starts, how large the pool becomes, that the list is exact if and only if a handle is left over, and what the free count is set to |
| Pool.GrownByMultiples | pool.h:289-292 | the pool grows by whole multiples of its size |
| Pool.Pool.AllocateMany | pool.h:266-357 | which of the two paths is taken, what list and counts are after each, and that a right free count is wrong afterwards on both |
| RefCounts.Machine.Reference | pool.h:359-371 | exact counts stay exact when a local takes a reference |
| RefCounts.Machine.Release | pool.h:373-403 | dropping a reference cascades through what the scalar refers to, terminates, keeps all counts exact and changes no scalar that stays in use |
| RefCounts.Machine.ReleaseLast | pool.h:378-390 | the last reference: the value is destroyed first, then the scalar leaves use |
| RefCounts.Machine.Clone | scalar.c:181-223 | copying a value into a local raises just the count it refers to |
| RefCounts.Machine.Destroy | scalar.c:128-171 | destroying a local gives up its reference |
| RefCounts.Machine.Push | stack.h:115-130 | the stack gets a copy with a reference of its own |
| RefCounts.Machine.Pop | stack.h:139-144 | the popped copy keeps a reference while the stack's own is given up |
| RefCounts.Machine.PopAll | stack.h:139-144 | NPOP hands over n values, the top first, with exact counts throughout |
| RefCounts.Machine.PushAll | stack.h:115-130 | NPUSH puts them back with the first on top |
| RefCounts.Machine.SetValue | scalar.c:181-223 | overwriting a pooled scalar releases what it held, even a reference to itself, and counts what it now holds |
| RefCounts.Machine.NewScalar | bytecode.c:458-470 | SCALAR leaves one reference, the one on the stack, to a new empty scalar |
| RefCounts.Machine.SrRead | bytecode.c:821-832 | SRREAD replaces a reference by the scalar's value |
| RefCounts.Machine.SrWrite | bytecode.c:841-853 | SRWRITE stores the value in the scalar if that stays in use, and leaves other scalars' values alone |
| RefCounts.Machine.Swap | stack.h:162-173 | exchanging the top two values moves bytes and counts nothing |
| RefCounts.Machine.CopyFrom | stack.h:175-187 | DUP and OVER push a counted copy of the value they name |
| RefCounts.Machine.Discard | stack.h:145-149 | DROP destroys the top value in place |
| RefCounts.Machine.Rot | bytecode.c:257-284 | the top item goes below the n - 1 others, with exact counts at every point |
| RefCounts.Machine.Tor | bytecode.c:293-320 | the lowest of n items goes on top, with exact counts at every point |
| RefCounts.Machine.Rev | bytecode.c:2434-2461 | REV turns round the items its count asks for, keeps those below and leaves the count; a negative one becomes zero |
| RefCounts.Machine.Execute | bytecode.c:202-320 | every instruction keeps all counts exact and does to the stack and to scalars in use what it does when no scalar ever leaves use |
| RefCounts.Machine.Run | bytecode.c:202-320 | over every run counts are exact, and stack and scalars in use are at each point those of the machine in which nothing is ever freed |
| RefCounts.AfterIs | bytecode.c:257-320 | what each instruction of the machine that never frees does to stack and scalars, item by item |
| RefCounts.AmongCounts | scalar.c:128-223 | the references counted among values are the occurrences of the reference |
| RefCounts.HeldCounts | scalar.c:128-223 | the references counted inside scalars are the scalars in use that hold it |
| RefCounts.OnlyRingsAreLeft | pool.h:373-403 | when the stack refers to no scalar, the scalars still in use have exactly one reference each and each refers to another one in use |
| RefCounts.InUseAtMostHeld | pool.h:373-403 | scalars that are all referred to are at most as many as the references |
| RefCounts.HeldAtMostInUse | scalar.c:128-171 | a scalar holds at most one reference, so there are at most as many references as scalars |
| RefCounts.TorUndoesRot | bytecode.c:257-320 | TOR with the same count undoes ROT, for every stack and count |
| RefCounts.RotUndoesTor | bytecode.c:257-320 | ROT with the same count undoes TOR |
| RefCounts.RevUndoesItself | bytecode.c:2434-2461 | REV leaves its count, and applied again with it gives the stack back |
| RefCounts.ReversedIs | bytecode.c:2434-2461 | the stack after REV, item by item |
| RefCounts.RotatedAllTheWay | bytecode.c:257-284 | ROT of n items, n times, brings every item back |
| Growth.OrLow | util.c:25-27 | or-ing in a word below 2^m leaves the bits from m up alone |
| Growth.SmearStep | util.c:25-27 | each round doubles the number of leading bits that are set |
| Growth.NextUpPow2 | util.c:22-30 | nextupow2 is the least power of two above x and at most 2x, for every x below 2^63, and wraps to 0 for every other word |
| Growth.Fits | util.c:22-30 | the power of two fits 64 bits exactly for x below 2^63 |
| Stacks.Stack.Reserve | stack.h:99-113 | reserving keeps the contents; the buffer is replaced exactly when it is too small |
| Stacks.Backwards | stack.h:115-152 | what a push puts on and a pop takes off, item by item |
| Stacks.Doubles | stack.h:99-113 | growing at least doubles the room, and copying stays within the room made while room stays within twice the peak |
| Stacks.Stack.Push | stack.h:115-130 | n values go on with the first on top; over any run copies total at most room - 16 and room at most twice the peak, or 16 |
| Stacks.Stack.Pop | stack.h:132-152 | n values come off, the top first; the rest and the rest of the results are kept |
| Stacks.Stack.Swap | stack.h:162-173 | the top two values change places |
| Stacks.Stack.Again | stack.h:175-187 | the value taken first is the one pushed; the buffer it was in is given up exactly when the stack was full |
| Stacks.HandOver | bytecode.c:125-158 | CORO's n parameters arrive on the child's stack in the order they had, and on the same stack change nothing |
| Arrays.Array.GrowBack | array.c:564-579 | growing at the back keeps the sequence and makes room for more than asked |
| Arrays.Array.GrowFront | array.c:588-604 | growing at the front moves the window up by a power of two above what was asked and keeps the sequence |
| Arrays.WindowMoved | array.c:588-604 | a window whose handles moved together stands for the same sequence |
| Arrays.Array.Reserve | array.c:544-555 | room for the target size behind the first item |
| Arrays.Array.Push | array.c:307-344 | array_push appends, in order |
| Arrays.Array.Unshift | array.c:353-403 | array_unshift prepends, in order, on all three paths; a non-empty array gets a new buffer exactly when it has no more free places in front than items to add |
| Arrays.Array.Pop | array.c:413-436 | array_pop takes the last item and fails only on an empty array |
| Arrays.Array.Shift | array.c:446-470 | array_shift takes the first item and fails only on an empty array |
| Arrays.Array.Fill | array.c:269-298 | array_fill with at least one value replaces the contents |
| Arrays.Array.List | array.c:226-260 | array_list is the contents in order |
| Arrays.Array.constructor | array.c:510-523 | a new array is empty |
| Strings.CompareAtFork | string.h:61-72 | string_cmp is decided by the first bytes that differ, else by length |
| Strings.CompareZero | string.h:61-72 | string_cmp is 0 exactly on equal strings |
| Strings.CompareFlips | string.h:61-72 | swapping the strings flips its sign |
| Strings.LessTransitive | string.h:61-72 | the order is transitive |
| Strings.HashValues | hash.c:696-710 | two known values of the one-at-a-time hash |
| Hashes.EarlyExit | hash.c:672-684 | once a greater key has been met, the key is not in the hash |
| Hashes.Inserted | hash.c:571-586 | an item linked in at its place keeps every chain sorted and in its bucket, and adds one key |
| Hashes.Deleted | hash.c:629-639 | unlinking an item keeps every chain sorted and removes one key |
| Hashes.Hash.Search | hash.c:565-591 | the walk stops at the key or at the place where it belongs |
| Hashes.Hash.Exists | hash.c:661-685 | true exactly when the map has the key |
| Hashes.Hash.Lookup | hash.c:545-605 | the key's item, created undefined if the map has no such key; no other binding changes |
| Hashes.Hash.Delete | hash.c:616-650 | removes exactly the key's binding, if any |
| Hashes.Hash.Size | hash.c:526-534 | the bucket counts add up to the size of the map |
| Hashes.Hash.Store | hash.c:354-361 | lookup followed by setting the value updates the map at the key |
| Hashes.Hash.Clear | hash.c:441-489 | the map is empty |
| Hashes.Hash.Fill | hash.c:346-371 | the map is that of storing the pairs from left to right into an empty one |
| Hashes.LastPairWins | hash.c:354-361 | after a fill a key is there if and only if some pair has it, with the value of the last such pair |
| Hashes.Hash.ListPairs | hash.c:294-335 | the pairs list every key once with its value, in bucket order and ascending within a bucket |
| Hashes.FlatOnce | hash.c:305-315 | no key is listed twice |
| Hashes.FlatCovers | hash.c:305-315 | every item is listed |
| Hashes.FlatInOrder | hash.c:294-336 | keys are listed bucket after bucket and ascending within each |
| Hashes.FlatIsListing | hash.c:294-335 | the chains one after the other are a listing of the map |
| Hashes.ListingFillsBack | hash.c:346-371 | filling from a listing gives back the map listed |
| HashOps.HrListP | bytecode.c:1316-1338 | HRLISTP leaves the stack with the pairs, the first on top, and their count |
| HashOps.HrFill | bytecode.c:1350-1384 | HRFILL takes the pairs counted off the stack, leaves an odd item, and replaces the map, if and only if the count is zero or at least 2 and as many items are there |
| HashOps.ListThenFill | bytecode.c:1316-1384 | listing one hash and filling any hash from the stack copies the map and leaves the stack as it was |
| HashOps.TakesBack | bytecode.c:1316-1384 | the two instructions agree on how the pairs lie on the stack |
| StringOps.Buffer.constructor | string.h:25-36 | string_alloc without a value makes an empty string with room for the least power of two above the bytes asked for |
| StringOps.Buffer.Of | string.h:25-36 | string_alloc with a value makes that string, with room in the same way |
| StringOps.Buffer.Reserve | string.c:17-38 | growth leaves a string of the same length whose last sixteen bytes have become zero |
| StringOps.MovedKeeps | string.c:24 | a string survives growth if and only if those bytes were zero before |
| StringOps.Buffer.Append | string.c:52-61 | stores within the buffer if and only if the bytes fit behind those in use or are more than the whole buffer holds; then they end behind those in use, which only growth damages |
| StringOps.Buffer.AppendByte | string.c:63-71 | one more byte behind those in use, which a full buffer damages by growing |
| StringOps.Buffer.Assign | string.c:40-50 | the contents become any bytes given and the rest is cleared |
| StringOps.Glue | bytecode.c:1938-1943 | the result buffer, sized from the summed lengths, takes every append without growing |
| StringOps.Xplod | bytecode.c:1871-1910 | each character of the string ends on the stack, the first on top, below the count |
| StringOps.Cat | bytecode.c:1919-1960 | CAT takes off the strings counted and pushes them one after the other, the topmost first, or nothing defined for a count that is not positive |
| StringOps.ConcatSingles | bytecode.c:1871-1960 | a string is the concatenation of its characters |
| StringOps.ConcatJoins | bytecode.c:1938-1943 | putting strings together keeps every string whole and in its place |
| StringOps.XplodThenCat | bytecode.c:1871-1960 | XPLOD then CAT gives every non-empty string back with the rest of the stack unchanged, and an undefined value for the empty string |
| Scopes.Registry.Remove | symboltable.c:109-129 | exactly the table's own entry leaves the registry, on the head's path and in the look-ahead loop |
| Scopes.Registry.Release | symboltable.c:94-148 | only the last reference destroys a table, and then its parent loses one |
| Scopes.Registry.Collect | symboltable.c:186-219 | the collector frees a prefix of the registry, only tables whose every reference was that of a freed one, takes from every other just the references of those, and stops at the first with references; tables that no other table counts on and that have references stay as they are |
| Scopes.Context.Enter | bytecode.c:102-113 | a call pushes a frame that saves the scope it leaves and starts a scope; every count stays 1 plus child plus frames |
| Scopes.Context.StartScope | vm.c:410-420 | a new innermost scope, registered, with its parent counted |
| Scopes.Context.CountsAreExact | symboltable.c:62-85 | every scope has one reference of its own, one from each scope started inside it and one from each frame that saves it |
| Scopes.Context.EndScope | vm.c:429-441 | the innermost scope ends, leaves the registry and gives up its parent |
| Scopes.Context.Return | bytecode.c:184-200 | RETURN ends exactly one scope, restores the caller's scope, counts and position, and dropping the saved state is never a last reference |
| Scopes.Context.DropSaved | vm.c:579-590 | both copies of the saved state give up their references without destroying a table |
| Scopes.Context.Finish | vm.c:238-246 | END leaves exactly the scopes below the two innermost in the registry, each still referred to |
| Scopes.Context.DestroyFrames | vm.c:514-516 | destroying the return stack takes one reference from each saved scope and destroys none |
| Scopes.Perform | bytecode.c:102-200 | what one call or return does to frames, scopes, position and registry |
| Scopes.PerformBeside | vm.c:156-246 | a step of one context leaves every other context's frames, scopes and counts alone |
| Scopes.Execute | vm.c:156-246 | over every run of calls and returns up to END: which tables remain, namely none exactly when END comes at most two calls deep |
| Scopes.CleanUp | vm.c:122-126 | the collector loop at the end never comes to an end after a run that ends more than two calls deep, and, with no other table registered, ends with its first call after every other |
| Scopes.WithoutOnly | symboltable.c:109-129 | taking a table off a registry without repeats takes off that one only |
| SymbolTables.FindIsExact | symboltable.c:367-386 | in an ordered tree a search finds the one symbol with the identifier, if there is one |
| SymbolTables.Table.Search | symboltable.c:371-383 | the inner loop finds what the tree holds |
| SymbolTables.Table.Lookup | symboltable.c:367-386 | lookup outwards through the parents returns the symbol with the identifier in the first scope that has one, and nothing exactly when no scope has one |
| SymbolTables.InnermostIs | symboltable.c:367-386 | the innermost binding is that of the first scope that has one |
| SymbolTables.Table.Descend | symboltable.c:540-568 | the walk ends at the identifier or at the symbol a new one belongs under |
| SymbolTables.Table.Insert | symboltable.c:532-572 | adds exactly the symbol, keeping order, links and parent links; refuses a duplicate and changes nothing |
| SymbolTables.Table.Define | symboltable.c:232-278 | one new binding in the current scope, every other lookup unchanged from here and from further out, so ending the scope restores every answer; nothing changes on a duplicate, and all scopes stay fit for lookup |
| SymbolTables.Table.Undefine | symboltable.c:398-509 | for either random choice: removes exactly the binding when the symbol has at most one child, or its replacement is neither of its children and has an inner child; otherwise it writes through a null pointer or leaves links that belong to no tree; and exactly when parent links stay right |
| SymbolTables.Table.Promote | symboltable.c:455-508 | with at most one child the tree stays a search tree, and its parent links right if and only if there is no child or the symbol was the root |
| SymbolTables.Table.Exchange | symboltable.c:411-454 | with two children and a replacement further down that has an inner child, order, links and parent links all stay right |
| SymbolTables.Table.Corrupt | symboltable.c:411-454 | a replacement that is a child of the symbol itself becomes its own child, and what the table links to is no tree |
| SymbolTables.NoTree | symboltable.c:411-454 | no tree contains a symbol that is its own child |
| SymbolTables.ExtremeIs | symboltable.c:414-427 | the replacement is the greatest (or least) symbol of its subtree |
| SymbolTables.JoinedIs | symboltable.c:411-437 | two subtrees joined under it are in order and have the same symbols |
| SymbolTables.ReplacedKeeps | symboltable.c:408-509 | replacing a subtree by one with some of its symbols keeps the order |
| SymbolTables.AroundThenLinked | symboltable.c:437-446 | with one link changed, the links are those of the tree with that subtree |
| SymbolTables.AroundThenParents | symboltable.c:437-446 | and the parent links are right if and only if those of the new subtree are |
| Channels.ReservedKeeps | channel.c:297-317 | the two copies of the growing ring keep the unread values in order |
| Channels.Dropped | channel.c:130-132 | moving start on and counting down drops the oldest value |
| Channels.Stored | channel.c:200-202 | storing behind the newest value touches no unread one |
| Channels.Channel.Take | channel.c:130-132 | takes the oldest unread value |
| Channels.Channel.Put | channel.c:200-202 | adds a newest value |
| Channels.Channel.Reserve | channel.c:297-317 | the buffer grows in place and the unread values keep their order |
| Channels.StepKeeps | channel.c:120-211 | every step of every thread keeps the lock exclusive and the ring equal to what is written and not yet read, between the halves of each access too |
| Channels.FirstInFirstOut | channel.c:120-211 | under every interleaving of any number of threads, with any time-outs, the values read are the first of those written, in order, and a free lock finds the rest in the ring |
| Channels.CallsAreHonest | channel.c:120-211 | in every run, what a thread's writes were given is what it has stored, and what its reads and try-reads have returned is what it has fetched, in order, but for the call it is in |
| Channels.NoneMeansEmpty | channel.c:153-179 | a try-read comes back without a value only when everything written has been taken |
| Channels.OnlyCallsAsk | channel.c:189-205 | only the start of a write gives a value to write |
| Channels.OnlyReadsAnswer | channel.c:120-179 | a read or try-read answers once, when it returns, and nothing else answers |
| Channels.ReadTakes | channel.c:120-140 | a read by itself takes the oldest value and returns it |
| Channels.NothingToRead | channel.c:120-179 | on an empty ring a read waits with the lock free, a try-read returns without a value |
| Channels.TryTakes | channel.c:153-179 | a try-read by itself takes the oldest value and returns it |
| Channels.WriteFits | channel.c:189-205 | a write by itself stores its value behind the others |
| Channels.WriteWaits | channel.c:189-195 | a write to a full ring waits with the lock free |
| Channels.WriteGrows | channel.c:191-205 | a write whose time is up doubles the ring and stores its value behind the others |
| Channels.NeverEmptyNorOverwritten | channel.c:120-211 | no thread reads from an empty ring or stores over an unread value |
| Channels.StepAwake | channel.c:126-135 | while a reader waits, wake-ups and readers under way are at least as many as values |
| Channels.NoReaderOversleeps | channel.c:126-135 | once nothing is under way, a reader that waits, waits beside an empty ring |
| Channels.StepRoomy | channel.c:189-205 | while a writer waits, wake-ups and writers under way are at least as many as free slots, whatever steps are taken but the two that make room unannounced |
| Channels.NoWriterOversleeps | channel.c:189-205 | in every run in which no try-read takes a value and no timed-out writer grows the ring while a writer waits, a writer left waiting with nothing under way waits beside a full ring |
| Channels.TryReadWakesNoWriter | channel.c:153-179 | with nothing under way to wake a waiting writer, a try-read that takes a value leaves the writer asleep beside a free slot |
| Channels.GrowthWakesNoWriter | channel.c:191-205 | with two writers asleep beside a full ring, the one whose time is up makes room and leaves the other asleep beside all new slots but one |
| Channels.WritersOversleepExactly | channel.c:120-211 | some run from a new channel leaves a writer asleep beside a free slot if and only if try-reads are called or writers' time can run out; either is enough |

## Left out

- Streams, `getdelim_ext`, the IN and OUT families and the reading and writing of files: system calls.
- The lexer and the grammar: the model starts from parsed lines. No printer exists to invert them.
- An empty program: the source dereferences its missing last line, so `Assembler.Assemble` asks for at least one line.
- Machine.Context.Turn: signal delivery after an instruction and `m_flags` are not part of a turn. A signal's frame is entered like a call's (`Scopes.Context.Enter`). Instructions that only touch data are a parameter.
- Machine.Context.Execute: as `Machine.Context.Turn`.
- Meaning.AssemblyPreservesMeaning: data instructions are a parameter that must agree on relocated function values. Turning a function reference into text would show its address and is not such an instruction.
- Threads.ProcessesKeepTheirMeaning: threads take turns instruction by instruction; what two instructions do to one pooled object at the same moment is left to the object's lock. A thread that cannot be created is not modelled.
- Meaning.PlainOpsRelated: of the data instructions only stack shuffles, NOT, SRREAD and SRWRITE are spelled out.
- RefCounts.Machine.Clone: references to arrays, hashes, channels and streams are not counted; their pools follow the same code.
- RefCounts.Machine.Destroy: as `RefCounts.Machine.Clone`, they are not released.
- Values other than integers as counts of ROT, TOR and REV: `strtol` and floating point.
- RefCounts.Machine.Allocate: takes the unused handle as given; which one it is, is the pool's part.
- Pool.Pool.Release: objects hold no references of their own here; the cascade of releases is in `RefCounts`.
- Pool.Pool.ReleaseInOrder: as `Pool.Pool.Release`.
- Pool.Pool.AllocateMany: does not promise a right free count, because the code does not keep one.
- Concurrent use of the pools: they are modelled one call at a time.
- Growth beyond 2^63 items, where `nextupow2` gives 0.
- `array_item_at` and `array_slice`: their growth is broken by a shadowed variable. `array_fill` with no values trips an assertion.
- `hash_list_keys` and `hash_list_values`: they index buckets by item number. `hash_slice` adds nothing to lookup.
- Hash values that are themselves counted scalars: `Hashes.Hash` keeps the value in the item.
- StringOps.Buffer.Append: says nothing of what is overwritten when bytes are stored past the end of the buffer.
- `symbol_clone`: it never sets the identifier. `symboltable_isolate`: nothing calls it.
- SymbolTables.Table.Define: the object a symbol refers to is a number here; allocating and counting it is not described.
- What later undefines do through a stale parent link: `SymbolTables.Table.Undefine` asks for right parent links.
- SymbolTables.Table.Undefine: does not describe the tables left behind after a write through a null pointer.
- Who owns a value that passes through a channel, and `_channel_destroy`: channel values are plain data.
- Allocation failure, except where a negative count makes it certain.
- Thread creation and the context registry.
- Simple arithmetic and comparison instructions.
