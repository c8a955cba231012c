# Verified models of the contract runtime library and its compiler example

This project models, in Dafny, the parts of the repository whose correctness is hardest to see from the
code, and proves what they promise:

- **The contract heap** (`libraries/wasmlib/malloc.cpp`). A class over a word array with in-band headers.
  Every operation keeps the heap tiled by blocks and the live blocks of all heaps apart and unchanged;
  first fit is complete; `realloc` keeps contents; the two phases (bump allocation until the host refuses,
  then first fit over freed blocks) never meet an unexpected state. Files: `HeapBlocks`, `BufferPtr`,
  `HeapInvariant`, `Resize`, `Memory`, `LinearMemory`, `MemoryManager`, `HeapFailures`,
  `HeapRuns`.
- **The BrainF compiler** (`wasm_llvm/examples/BrainF/BrainF.cpp`). The one-pass parser is proved to emit
  exactly the code of the parsed program, that code runs exactly as direct interpretation of the eight
  commands does, never leaves the tape when bounds are checked, and is well-formed static single
  assignment form. Files: `BrainFLanguage`, `Ir`, `BrainFEmit`, `BrainFSimulation`, `BrainFCorrect`,
  `BrainFParser`, `BrainFProgram`, `Ssa`, `BrainFSsa`, `BrainFWellFormed`, `BrainFEndToEnd`.
- **Ropes** (`libraries/wasmlib/core/rope.hpp`). The flattening walk keeps parent links in shared nodes
  instead of a stack. File: `Rope`.
- **128-bit arithmetic** (`libraries/wasmlib/core/uint128.hpp`), in place on two 64-bit halves, with
  operands that may be the object that is changed. Files: `Bits`, `Arith128`, `UInt128`, `Decimal`.
- **Serialization** (`libraries/wasmlib/core/datastream.hpp`, `libraries/wasmlib/core/varint.hpp`) over a
  recursive universe of types. Files: `VarInt`, `Codec`, `CodecOrder`, `CodecCorrect`, `Stream`, `StreamRead`, `Pack`.
- **Tables with secondary indices** (`libraries/wasmlib/contracts/db.hpp`). Files: `DbKeys`, `DbIndices`,
  `DbRuns`, `DbTable`, `DbFailures`.
- **Fixed-size byte strings** (`libraries/wasmlib/core/fixed_bytes.hpp`). File: `FixedBytes`.
- **Names** (`libraries/wasmlib/core/name.hpp`, `tools/include/wasm/utils.hpp`). Files: `NameValues`,
  `Names`, `NamePrint`, `NameSuffix`.

`Buffers` holds what several of them share: bytes, copying into a buffer, and texts that end with a NUL.

`dafny verify dfyconfig.toml` checks the whole project.

## How to read it

Units and conventions:

- The heap is modelled for wasm32 (`_size_marker` is 4). Addresses, sizes and offsets of the allocator are
  counted in 4-byte words; `sbrk`, `adjust_to_mem_block` and the page arithmetic are in bytes. The null
  pointer is 0. Ghost fields (`blocks`, `rows`) hold the abstract value that the real fields are tied to.
- Machine arithmetic is unbounded `int` with the wrap-around written out (`% 2^32`, `% 2^64`, `% 2^128`)
  wherever it can happen.
- A failed `check` is an explicit outcome (`ok == false`, `Failed`, `Stopped`), not a precondition. The one
  exception is the check in `malloc_from_freed` (`libraries/wasmlib/malloc.cpp:291`): it is a precondition of
  `MemoryHeap.Memory.MallocFromFreed`, and the manager is proved to meet it at every call.
- Pointer-width failure sentinels of the allocator (`libraries/wasmlib/malloc.cpp:44`, `:85`, `:96`) are an
  explicit success-or-failure outcome. The host may refuse to grow the memory at any call: its answers are a
  function from the number of the request, which stays unknown.

Where the code does not meet what one would expect, the code is modelled as it is, and the exact condition
is proved:

- `realloc_in_place` can break the heap in two ways, and does so if and only if `Resize.InPlaceSafe` fails
  (`MemoryHeap.Memory.ReallocInPlace` proves both directions, `MemoryManager.Manager.Realloc` carries them up
  to the whole allocator). The test `ptr > end_of_buffer - size` wraps when the new size exceeds the end
  address, so that the last block can be grown past the heap (`HeapFailures.GrowthPastTheEnd` is such a run);
  and growing over free blocks walks to the end of the heap instead of to `_offset`, into memory that was
  never handed out (`HeapFailures.GrowthIntoUnusedMemory`).
- The test of the bump allocator is exact if and only if the sum does not wrap
  (`MemoryHeap.BumpTestExact`). In every heap some size wraps and passes (`HeapFailures.WrappedBump`); in the
  empty first heap a request of 0xFFFF_FFFC bytes does (`HeapFailures.WrappedRequest`). The three largest
  requests are rounded down to four bytes (`HeapFailures.AdjustedCovers`). `malloc` and `realloc` are proved for
  every request whose sum does not wrap (`MemoryManager.Manager.Unwrapped`), which is every request at all once
  bump allocation is over, and up to 0x7FFF_FFFC bytes in every state (`MemoryManager.Manager.SmallRequest`).
- Shrinking in place writes a header inside the block and never the block's own header, so nothing is given
  back: `Resize.ShrinkOk` states that the block keeps its recorded size.
- The comment "provided that it has 1KiB remaining" is not met in the last KiB of every other page, because
  the second case counts in pairs of pages (`MemoryManager.HeapAdj` states exactly when,
  `HeapFailures.ShortGrowth` has a break from which eight bytes are asked for).
- When bounds are checked, a compiled BrainF program looks at the head once at the end of each run of moves,
  not after each one; the reference semantics faults at the next command that is no move
  (`BrainFCorrect.OverTheEdge` has a run that leaves the tape and returns).
- With bounds checking and a tape without cells the first head is off the tape and nothing notices; all
  programs are compiled correctly if and only if there is no bounds checking or the tape has a cell
  (`BrainFCorrect.CorrectExactly`, with the empty program as the failing input).
- `set` on a key that another object holds, and `del` of an object whose secondary keys are not those stored,
  break the indices; `DbRuns.UpdateAgrees` states the condition as an if and only if, and `DbFailures` has a
  table and a run for each of the two.
- `datastream::write` compares the room with the length as a signed 32-bit number, so that from 2^31 bytes on
  it passes without room. It is exact if and only if the length is below 2^31 or there is room
  (`Streams.WriteTestExact`; `Streams.WriteTestFails` has a failing length).
- The tools print the zero name as thirteen underscores, the library as nothing (`NamePrint.NameToString`).
- `suffix` treats leading underscores like any others, although its comment sets them apart (`NameSuffix.Suffix`,
  and `NameSuffix.LeadingUnderscore` for the name `_a`).

## Model

| member | source | states |
|---|---|---|
| `HeapBlocks.Header` | libraries/wasmlib/malloc.cpp:422-453 | a header word holds size and flag, and both can be read back |
| `HeapBlocks.TilesDeterministic` | libraries/wasmlib/malloc.cpp:394-420 | headers can be read as blocks in one way only |
| `HeapBlocks.LiveDisjoint` | libraries/wasmlib/malloc.cpp:275-287 | two live blocks of a heap share no word, not even each other's header |
| `HeapBlocks.MergedKeepsWords` | libraries/wasmlib/malloc.cpp:486-494 | merging and splitting cover exactly the words covered before |
| `HeapBlocks.AbsorbedStops` | libraries/wasmlib/malloc.cpp:471-480 | the merge stops early only at an allocated block or at the end |
| `HeapBlocks.MergeDecidesFit` | libraries/wasmlib/malloc.cpp:297-305 | merging from the start of a maximal free run succeeds exactly when the run fits |
| `BufferPtr.WithSize` | libraries/wasmlib/malloc.cpp:422-428 | setting a size keeps the flag |
| `BufferPtr.MarkAlloc` | libraries/wasmlib/malloc.cpp:440-443 | setting the flag keeps the size |
| `BufferPtr.MarkFree` | libraries/wasmlib/malloc.cpp:445-448 | clearing the flag keeps the size |
| `BufferPtr.GatherFree` | libraries/wasmlib/malloc.cpp:471-480 | the walk over raw headers finds the size of the free run and stays inside the heap |
| `BufferPtr.MergeContiguous` | libraries/wasmlib/malloc.cpp:465-497 | refines one step on the block list: success exactly when enough is free, the merged block and remainder in place of the run, two headers written at most, nothing written when all-or-nothing fails |
| `HeapInvariant.HeapOkAppend` | libraries/wasmlib/malloc.cpp:283-285 | a block put at the offset keeps the heap well-formed |
| `HeapInvariant.MergeOk` | libraries/wasmlib/malloc.cpp:465-497 | a merge keeps the heap tiled and aligned |
| `HeapInvariant.MergeKeeps` | libraries/wasmlib/malloc.cpp:485-494 | a merge touches no payload of another live block |
| `HeapInvariant.WalkFound` | libraries/wasmlib/malloc.cpp:300-304 | handing out a run adds exactly that block to the live ones |
| `HeapInvariant.PayloadOk` | libraries/wasmlib/malloc.cpp:275-287 | whatever the program stores inside a live block leaves the heap and all other blocks alone |
| `HeapInvariant.ShortRunsNoFit` | libraries/wasmlib/malloc.cpp:294-308 | a heap whose free blocks stand alone and are too short has no run that fits, which is how an unsuccessful walk leaves it |
| `Resize.ShrinkOk` | libraries/wasmlib/malloc.cpp:334-342 | shrinking keeps the heap, the recorded size, and every other block |
| `Resize.GrowLastOk` | libraries/wasmlib/malloc.cpp:344-350 | growing the last block inside the heap keeps it well-formed and the contents in place |
| `Resize.GrowLastBreaks` | libraries/wasmlib/malloc.cpp:328-350 | growing the last block past the end leaves headers that no list of blocks explains |
| `Resize.GrowOverOk` | libraries/wasmlib/malloc.cpp:354-359 | growing over free blocks in the safe case keeps the heap, the contents and every other block |
| `Resize.GrowOverBreaks` | libraries/wasmlib/malloc.cpp:465-497 | a walk past the offset leaves headers that no list of blocks explains |
| `Resize.UnsafeWalkOverruns` | libraries/wasmlib/malloc.cpp:472-480 | in the unsafe case the walk does find enough, past the offset |
| `MemoryHeap.RoomTest` | libraries/wasmlib/malloc.cpp:328 | the wrapped subtraction turns a request down exactly when it does not wrap and does not fit |
| `MemoryHeap.BumpTestExact` | libraries/wasmlib/malloc.cpp:277-281 | the wrapped sum decides correctly if and only if it does not wrap |
| `MemoryHeap.Memory.constructor` | libraries/wasmlib/malloc.cpp:245-250 | a heap that is not set up |
| `MemoryHeap.Memory.Init` | libraries/wasmlib/malloc.cpp:252-256 | zeroed memory is a well-formed empty heap |
| `MemoryHeap.Memory.Malloc` | libraries/wasmlib/malloc.cpp:275-287 | null exactly when there is no room; else one more block at the old offset and nothing else changed |
| `MemoryHeap.Memory.Free` | libraries/wasmlib/malloc.cpp:362-366 | exactly the block given becomes free, one header word is written |
| `MemoryHeap.Memory.TakeRun` | libraries/wasmlib/malloc.cpp:297-305 | a free run is taken exactly when it suffices, else merged into one free block |
| `MemoryHeap.Memory.WalkStep` | libraries/wasmlib/malloc.cpp:294-308 | one round of the walk moves on to the next maximal run |
| `MemoryHeap.Memory.MallocFromFreed` | libraries/wasmlib/malloc.cpp:289-312 | complete first fit on a full heap: null exactly when no maximal run fits, before and after the walk; else the lowest one that does, cut to size; it terminates |
| `MemoryHeap.Memory.GrowLast` | libraries/wasmlib/malloc.cpp:344-350 | the heap is well-formed afterwards if and only if the growth is safe |
| `MemoryHeap.Memory.GrowOver` | libraries/wasmlib/malloc.cpp:354-359 | likewise for growing over free blocks; it succeeds exactly when the walk to the end of the heap finds enough, and nothing changes when it fails |
| `MemoryHeap.Memory.ReallocInPlace` | libraries/wasmlib/malloc.cpp:314-360 | the heap survives if and only if the resize is safe; contents and other blocks are kept; the offset moves only for the last block; shrinking writes exactly one header; null exactly when the end of the heap comes first or the walk does not find enough, and then nothing changes |
| `MemoryHeap.Memory.ResizeLive` | libraries/wasmlib/malloc.cpp:314-360 | resizing a live block: the heap is well-formed afterwards if and only if the resize is safe, and then contents and other blocks are kept; the exact condition for null |
| `MemoryHeap.Memory.CleanupRemaining` | libraries/wasmlib/malloc.cpp:368-378 | the rest of the heap becomes one free block and the heap is full; exactly that block is added |
| `MemoryHeap.Memory.ExpandMemory` | libraries/wasmlib/malloc.cpp:380-388 | a heap grows exactly when the new memory follows it |
| `LinearMemory.RoundUp8` | libraries/wasmlib/malloc.cpp:38 | the next multiple of 8 |
| `LinearMemory.Linear.constructor` | libraries/wasmlib/malloc.cpp:24-29 | the memory before the first call |
| `LinearMemory.Linear.Grow` | libraries/wasmlib/malloc.cpp:44 | the host grants all pages or none, as it answers this request |
| `LinearMemory.Linear.Sbrk` | libraries/wasmlib/malloc.cpp:20-54 | the break moves by the rounded size; the host is asked exactly if that takes more pages, for exactly these, and if it refuses nothing changes |
| `MemoryManager.AdjustToMemBlock` | libraries/wasmlib/malloc.cpp:233-240 | the next size whose footprint is a multiple of 8 |
| `MemoryManager.BlockWords` | libraries/wasmlib/malloc.cpp:233-240 | that size in words |
| `MemoryManager.HeapAdj` | libraries/wasmlib/malloc.cpp:88-94 | how far the break is moved: to the end of the page, or of the pair of pages in its last KiB, and exactly when it is less than 1 KiB |
| `MemoryManager.Manager.constructor` | libraries/wasmlib/malloc.cpp:66-74 | a manager that has handed out nothing; only the static heap and the memory past the break have to be zero |
| `MemoryManager.Manager.StopBump` | libraries/wasmlib/malloc.cpp:96-102 | after a refusal every heap is filled up with one free block and bump allocation is over |
| `MemoryManager.Manager.AddMemory` | libraries/wasmlib/malloc.cpp:104-115 | new memory extends the active heap or opens the next one; the old one is filled up |
| `MemoryManager.Manager.AskForMemory` | libraries/wasmlib/malloc.cpp:84-96 | the host is asked once, for one page; the break moves by it, page-aligned, exactly if the host grants it |
| `MemoryManager.Manager.NextActiveHeap` | libraries/wasmlib/malloc.cpp:79-116 | null exactly if the host, asked once, refuses the next page; else the active heap has that page more, or the next one opens in it; all live blocks stay |
| `MemoryManager.Manager.Start` | libraries/wasmlib/malloc.cpp:122-142 | the first call sets up heap 0 and nothing else |
| `MemoryManager.Manager.BumpActive` | libraries/wasmlib/malloc.cpp:146 | bump allocation seen across both heaps |
| `MemoryManager.Manager.BumpOrGrow` | libraries/wasmlib/malloc.cpp:144-152 | the first loop of malloc ends with the block if the host grants the pages it takes, asking for no more than these, and otherwise at the first refusal, with every heap filled up |
| `MemoryManager.MorePagesLeast` | libraries/wasmlib/malloc.cpp:144-152 | the pages asked for are enough, and one fewer is not |
| `MemoryManager.Manager.OnePageEnough` | libraries/wasmlib/malloc.cpp:144-152 | a block that a fresh page can hold takes one page at most |
| `MemoryManager.Manager.TakeFreed` | libraries/wasmlib/malloc.cpp:160 | first fit in one heap seen across both; its check never fails |
| `MemoryManager.Manager.SearchFreed` | libraries/wasmlib/malloc.cpp:154-169 | the second loop ends, finds nothing exactly when no run of any heap fits, and otherwise the first fit of the first heap, from where the last search stopped, that has one |
| `MemoryManager.Manager.Malloc` | libraries/wasmlib/malloc.cpp:117-172 | a block of the adjusted size apart from all others, which keep their contents; null for 0; otherwise the bump allocator's block exactly if the host grants the pages it takes, else the first fit in the blocks as they were or as they are filled up when the host refuses, and null exactly when none fits |
| `MemoryManager.Manager.FindHeap` | libraries/wasmlib/malloc.cpp:222-225 | the search finds the heap whose range holds the pointer |
| `MemoryManager.Manager.FoundHeapOwns` | libraries/wasmlib/malloc.cpp:222-229 | a live pointer is in some heap, and it is in a heap exactly if that heap owns the block |
| `MemoryManager.Manager.Free` | libraries/wasmlib/malloc.cpp:217-231 | exactly the block given is no longer live; null and pointers into no heap are ignored |
| `MemoryManager.Manager.LiveBlocksDisjoint` | libraries/wasmlib/malloc.cpp:117-388 | in every reachable state the live blocks of all heaps are pairwise apart |
| `MemoryManager.Manager.ResizeIn` | libraries/wasmlib/malloc.cpp:193 | resizing in place seen across both heaps: the allocator survives if and only if it is safe |
| `MemoryManager.Manager.TryInPlace` | libraries/wasmlib/malloc.cpp:184-201 | the allocator survives if and only if the resize is safe; the block stays where it is, with its contents, exactly if its heap does not turn the size down, and otherwise nothing changes |
| `MemoryManager.Manager.CopyWords` | libraries/wasmlib/malloc.cpp:210 | the copy between two live blocks changes only the target |
| `MemoryManager.Manager.Move` | libraries/wasmlib/malloc.cpp:203-214 | a new block, not one the program holds already, with the old contents in place of the old one, if there is one; or nothing, when all memory is handed out and no free run fits |
| `MemoryManager.Manager.Realloc` | libraries/wasmlib/malloc.cpp:174-215 | the pointer stays exactly if the block's heap does not turn the size down; else the block comes from where `malloc` finds one. The allocator survives if and only if the resize is safe, and then the result holds the first min(old, new) words and every other block is unchanged; a null result leaves the old block live and unchanged; null and pointers into no heap get a new block |
| `MemoryManager.Manager.ShrinkStays` | libraries/wasmlib/malloc.cpp:328-353 | a block that does not grow keeps its place, in every state |
| `MemoryManager.Manager.OneSize` | libraries/wasmlib/malloc.cpp:174-215 | a pointer is that of one live block only |
| `MemoryManager.Manager.SmallRequest` | libraries/wasmlib/malloc.cpp:277 | requests up to 0x7FFF_FFFC bytes wrap in no state |
| `MemoryManager.Manager.Store` | libraries/wasmlib/malloc.cpp:528-530 | a store by the program into a block it holds disturbs nothing |
| `HeapFailures.GrowthIntoUnusedMemory` | libraries/wasmlib/malloc.cpp:354-359 | a run of four calls after which no list of blocks explains the headers and the pointer of the next block lies inside a live one: growing over a freed block into memory never handed out |
| `HeapFailures.GrowthPastTheEnd` | libraries/wasmlib/malloc.cpp:328-350 | a run of two calls that does the same: growing the last block past the end of the heap |
| `HeapFailures.ShortGrowth` | libraries/wasmlib/malloc.cpp:88-94 | a break from which the heap is extended by eight bytes |
| `HeapFailures.WrappedBump` | libraries/wasmlib/malloc.cpp:277-281 | in every heap some block size passes the test of the bump allocator and does not fit |
| `HeapFailures.WrappedRequest` | libraries/wasmlib/malloc.cpp:233-281 | in the empty first heap a request of 0xFFFF_FFFC bytes is such a size |
| `HeapFailures.AdjustedCovers` | libraries/wasmlib/malloc.cpp:233-240 | the adjusted size covers the request if and only if that is at most 0xFFFF_FFFC; above, it is four bytes |
| `HeapRuns.FirstPage` | libraries/wasmlib/malloc.cpp:117-172 | a run with its pointers: 8188 bytes fill the static heap, the next 16380 come from the page after the break if the host grants it, and it is asked once |
| `BrainFLanguage.CommandsKept` | wasm_llvm/examples/BrainF/BrainF.cpp:418-421 | the commands of a text are kept, in order, and nothing else is |
| `BrainFCorrect.CompiledHeader` | wasm_llvm/examples/BrainF/BrainF.cpp:84-190 | the end and error blocks of the header are in every compiled function as they were made |
| `BrainFEmit.EmitCmds` | wasm_llvm/examples/BrainF/BrainF.cpp:202-316 | the builder stays usable, and of the old blocks only the one at the insertion point grows |
| `BrainFSimulation.ExecChange` | wasm_llvm/examples/BrainF/BrainF.cpp:278-290 | load, add and store change the cell by the folded value modulo 256 |
| `BrainFSimulation.SimFlush` | wasm_llvm/examples/BrainF/BrainF.cpp:246-290 | a folded run takes effect when it is written out, or leaves the tape when the head is off it |
| `BrainFSimulation.SimCmd` | wasm_llvm/examples/BrainF/BrainF.cpp:202-316 | the code of one command runs as the command does |
| `BrainFSimulation.SimLoop` | wasm_llvm/examples/BrainF/BrainF.cpp:426-464 | the code of a loop, with its phi nodes, runs as the loop does |
| `BrainFSimulation.SimCmds` | wasm_llvm/examples/BrainF/BrainF.cpp:202-316 | the code of a sequence of commands runs as they do |
| `BrainFCorrect.HeaderRuns` | wasm_llvm/examples/BrainF/BrainF.cpp:92-127 | the header zeroes the tape, whatever was in it, and puts the head in the middle |
| `BrainFCorrect.CompilerCorrect` | wasm_llvm/examples/BrainF/BrainF.cpp:192-476 | for every program, input and length of run, the compiled function has the same tape, head, input and output as direct interpretation, or stops with the error as it does |
| `BrainFCorrect.CorrectExactly` | wasm_llvm/examples/BrainF/BrainF.cpp:192-476 | all programs are compiled correctly if and only if there is no bounds checking or the tape has a cell |
| `BrainFCorrect.EmptyTape` | wasm_llvm/examples/BrainF/BrainF.cpp:246-276 | otherwise the empty program ends without the error that its head calls for |
| `BrainFCorrect.OverTheEdge` | wasm_llvm/examples/BrainF/BrainF.cpp:246-276 | on a tape of one cell `><` runs without the error that `>` alone ends in |
| `BrainFCorrect.CompiledStopsAsInterpreted` | wasm_llvm/examples/BrainF/BrainF.cpp:192-476 | the converse: it stops only where interpretation does, and never gets stuck |
| `BrainFCorrect.CompiledStaysOnTape` | wasm_llvm/examples/BrainF/BrainF.cpp:246-276 | with bounds checking every load and store of every run addresses a cell of the tape |
| `BrainFParser.FlushEarly` | wasm_llvm/examples/BrainF/BrainF.cpp:318-331 | a run can be written out before its successor is looked at |
| `BrainFParser.Parser.constructor` | wasm_llvm/examples/BrainF/BrainF.cpp:53-60 | parsing starts with the header written |
| `BrainFParser.Parser.TakeChar` | wasm_llvm/examples/BrainF/BrainF.cpp:337-422 | one character joins the run, becomes the symbol read ahead, or is skipped; what remains to be compiled is the same |
| `BrainFParser.Parser.ReadSymbols` | wasm_llvm/examples/BrainF/BrainF.cpp:318-424 | the reading loop ends with a complete symbol and compiles to the same |
| `BrainFParser.Parser.WriteOut` | wasm_llvm/examples/BrainF/BrainF.cpp:203-316 | writing out a symbol is what it stands for; for a bracket, the whole loop |
| `BrainFParser.Parser.ReadLoop` | wasm_llvm/examples/BrainF/BrainF.cpp:192-476 | the recursive parser emits exactly the specified code, or the specified error |
| `BrainFProgram.CommentsIgnored` | wasm_llvm/examples/BrainF/BrainF.cpp:418-421 | a text and its commands compile to the same code |
| `BrainFProgram.TextParses` | wasm_llvm/examples/BrainF/BrainF.cpp:318-424 | the text of any program is parsed to the code of that program |
| `BrainFProgram.ParsedSpells` | wasm_llvm/examples/BrainF/BrainF.cpp:318-424 | every text that is accepted spells a program |
| `BrainFProgram.ExtraSpells` | wasm_llvm/examples/BrainF/BrainF.cpp:426-430 | a text is rejected for an extra bracket only if it is a program followed by one |
| `BrainFProgram.CompileText` | wasm_llvm/examples/BrainF/BrainF.cpp:53-63 | compilation succeeds exactly for balanced texts and yields the code of the program; an extra bracket is reported exactly when there is one |
| `BrainFEndToEnd.CompileCorrectly` | wasm_llvm/examples/BrainF/BrainF.cpp:53-476 | from text to run: exactly the balanced texts are compiled, each to a well-formed function that does, on every input, what interpreting the program it spells does, and stops only where that does |
| `Ssa.UsesAndAssigns` | wasm_llvm/examples/BrainF/BrainF.cpp:202-316 | an instruction runs exactly if the registers it uses have values, and gives values to exactly those it assigns |
| `Ssa.FlowDominates` | wasm_llvm/examples/BrainF/BrainF.cpp:192-476 | flow facts that hold along edges put a definition in front of every use on every path |
| `BrainFSsa.HeaderInv` | wasm_llvm/examples/BrainF/BrainF.cpp:84-190 | the header is well-formed |
| `BrainFSsa.OpenInv` | wasm_llvm/examples/BrainF/BrainF.cpp:292-312 | an opened loop: one incoming value so far, the body may use the phi |
| `BrainFSsa.CloseInv` | wasm_llvm/examples/BrainF/BrainF.cpp:431-464 | a closed loop: two incoming values for two predecessors, and the phi after the loop |
| `BrainFSsa.CmdsInv` | wasm_llvm/examples/BrainF/BrainF.cpp:202-316 | emitting commands keeps the flow facts and phi nodes right |
| `BrainFWellFormed.CmdsClose` | wasm_llvm/examples/BrainF/BrainF.cpp:202-316 | only the insertion point and enclosing tests lack a terminator |
| `BrainFWellFormed.CmdsNumbered` | wasm_llvm/examples/BrainF/BrainF.cpp:202-316 | every register is assigned once |
| `BrainFWellFormed.CompiledWellFormed` | wasm_llvm/examples/BrainF/BrainF.cpp:192-476 | for every program: each block has one terminator with existing targets, each phi exactly one value per predecessor, each register one assignment, and each use is dominated by it |
| `Ropes.NodesClosed` | libraries/wasmlib/core/rope.hpp:19-30 | parts of a rope are ropes made of its nodes |
| `Ropes.GoDown` | libraries/wasmlib/core/rope.hpp:57-70 | the links lead back along the way, although nodes are shared |
| `Ropes.VisitConcat` | libraries/wasmlib/core/rope.hpp:56-75 | a concatenation met going down: as much to write as before, less to do |
| `Ropes.VisitBack` | libraries/wasmlib/core/rope.hpp:83-96 | a concatenation met going up: likewise |
| `Ropes.Walk` | libraries/wasmlib/core/rope.hpp:46-98 | the walk ends on every rope, fills exactly the bytes of its text, and changes nothing but the links in its nodes |
| `Ropes.Find` | libraries/wasmlib/core/rope.hpp:111-131 | finds the character at an index from the end of the pieces, and changes nothing once found |
| `Ropes.Rope.constructor` | libraries/wasmlib/core/rope.hpp:140-143 | the rope of a string |
| `Ropes.Rope.Copy` | libraries/wasmlib/core/rope.hpp:193-206 | a copy with the same text, sharing the nodes |
| `Ropes.Rope.AppendString` | libraries/wasmlib/core/rope.hpp:150-155 | the string is at the end of the text |
| `Ropes.Rope.Append` | libraries/wasmlib/core/rope.hpp:165-173 | the other rope's text is at the end, also if it is this rope; the other rope is as before |
| `Ropes.Rope.Plus` | libraries/wasmlib/core/rope.hpp:198-206 | a new rope with both texts; both operands keep theirs |
| `Ropes.Rope.At` | libraries/wasmlib/core/rope.hpp:157-163 | the character of the text at that index |
| `Ropes.Rope.Length` | libraries/wasmlib/core/rope.hpp:209-211 | the length of the text |
| `Ropes.Rope.CStr` | libraries/wasmlib/core/rope.hpp:217-225 | the text and a NUL; the rope keeps its text |
| `Bits.BitAtIs` | libraries/wasmlib/core/uint128.hpp:182-197 | bit k of a number is the parity of its quotient by 2^k |
| `Bits.BitByBit` | libraries/wasmlib/core/uint128.hpp:182-197 | the operations or, and, xor work bit by bit |
| `Arith128.AddCarry` | libraries/wasmlib/core/uint128.hpp:259-264 | the carry test by comparison is right for all halves |
| `Arith128.ShlHalves` | libraries/wasmlib/core/uint128.hpp:211-222 | masking and shifting across the halves is multiplication by 2^n modulo 2^128 |
| `Arith128.ShrHalves` | libraries/wasmlib/core/uint128.hpp:242-254 | and division by 2^n |
| `Arith128.MulHalves` | libraries/wasmlib/core/uint128.hpp:266-303 | the ten limb products give the product modulo 2^128 |
| `UInt128s.UInt128.Equals` | libraries/wasmlib/core/uint128.hpp:155 | equality of values |
| `UInt128s.UInt128.Less` | libraries/wasmlib/core/uint128.hpp:157 | order of values |
| `UInt128s.UInt128.NotLess` | libraries/wasmlib/core/uint128.hpp:337 | order of values |
| `UInt128s.UInt128.Increment` | libraries/wasmlib/core/uint128.hpp:163-166 | plus one modulo 2^128 |
| `UInt128s.UInt128.Negated` | libraries/wasmlib/core/uint128.hpp:160 | two's complement |
| `UInt128s.UInt128.AddAssign` | libraries/wasmlib/core/uint128.hpp:259-264 | sum modulo 2^128, also of a number with itself |
| `UInt128s.UInt128.SubAssign` | libraries/wasmlib/core/uint128.hpp:265 | difference modulo 2^128 |
| `UInt128s.UInt128.OrAssign` | libraries/wasmlib/core/uint128.hpp:182-186 | bitwise or of the values |
| `UInt128s.UInt128.ShlAssign` | libraries/wasmlib/core/uint128.hpp:197-226 | shift up by any amount, 0 from 128 on |
| `UInt128s.UInt128.ShrAssign` | libraries/wasmlib/core/uint128.hpp:228-257 | shift down by any amount, 0 from 128 on |
| `UInt128s.UInt128.MulAssign` | libraries/wasmlib/core/uint128.hpp:266-303 | product modulo 2^128, also of a number with itself |
| `UInt128s.UInt128.FullProduct` | libraries/wasmlib/core/uint128.hpp:365-408 | the exact 256-bit product, even if the results are the operands; its low half if both results are one object |
| `UInt128s.UInt128.TopBitClear` | libraries/wasmlib/core/uint128.hpp:23 | the loop test looks at the top bit |
| `UInt128s.UInt128.ShiftUp` | libraries/wasmlib/core/uint128.hpp:23-26 | the divisor is scaled until one subtraction at each place is enough |
| `UInt128s.UInt128.ShiftDown` | libraries/wasmlib/core/uint128.hpp:28-36 | shift and subtract ends with quotient and remainder |
| `UInt128s.UInt128.Divide` | libraries/wasmlib/core/uint128.hpp:10-41 | numerator = quotient * denominator + remainder with a smaller remainder, even if the results are the operands; the remainder if both results are one object; fails exactly for 0 |
| `UInt128s.UInt128.ModAssign` | libraries/wasmlib/core/uint128.hpp:316-320 | the remainder in place |
| `UInt128s.UInt128.FromText` | libraries/wasmlib/core/uint128.hpp:52-120 | the constructor reads sign, radix prefix and digits as specified |
| `UInt128s.UInt128.ToText` | libraries/wasmlib/core/uint128.hpp:126-145 | the decimal digits, in a static buffer in which the byte after the last digit is never written and stays zero |
| `UInt128s.UInt128.PrintParse` | libraries/wasmlib/core/uint128.hpp:52-145 | printing a number and constructing one from the text gives the number back |
| `Decimal.ParseDigits` | libraries/wasmlib/core/uint128.hpp:52-145 | reading the printed form gives the number back, zero too |
| `Decimal.ParseHexadecimal` | libraries/wasmlib/core/uint128.hpp:62-113 | `0x` and the hexadecimal text of any 128-bit number, in lower or upper case, is read as that number |
| `Decimal.ParseOctal` | libraries/wasmlib/core/uint128.hpp:62-113 | `0` and the octal text of any 128-bit number is read as that number |
| `Decimal.DigitsOfRadix` | libraries/wasmlib/core/uint128.hpp:85-105 | which characters are digits of a radix, and of what value |
| `Decimal.StopsAtOther` | libraries/wasmlib/core/uint128.hpp:85-105 | reading stops at the first character that is no digit of the radix |
| `Decimal.ParseNegative` | libraries/wasmlib/core/uint128.hpp:115-118 | a minus sign gives the two's complement |
| `VarInts.DecodeEncode` | libraries/wasmlib/core/varint.hpp:205-234 | decoding undoes encoding and stops at its end |
| `VarInts.AtMostFiveBytes` | libraries/wasmlib/core/varint.hpp:205-214 | a 32-bit number takes five bytes at most |
| `VarInts.ZigZagValue` | libraries/wasmlib/core/varint.hpp:433 | numbers of small absolute value become small |
| `VarInts.UnZigZagZigZag` | libraries/wasmlib/core/varint.hpp:432-461 | the signed form is undone, with the 64-bit sum cut down to 32 bits |
| `Codec.LowByteFirst` | libraries/wasmlib/core/datastream.hpp:921-933 | byte i of a packed number is its bits 8i to 8i+7 |
| `VarInts.SevenBits` | libraries/wasmlib/core/varint.hpp:205-214 | byte i of a varint holds bits 7i to 7i+6, and every byte but the last has its top bit set |
| `VarInts.NoMoreBytes` | libraries/wasmlib/core/varint.hpp:205-214 | as many bytes as the number needs and no more |
| `CodecOrder.NumbersByValue` | libraries/wasmlib/core/datastream.hpp:747-829 | numbers are ordered by value |
| `CodecOrder.ListsAtFirstDifference` | libraries/wasmlib/core/datastream.hpp:747-829 | tuples, vectors and other lists are ordered by the first place where they differ, a beginning before the whole |
| `CodecOrder.TextsByByte` | libraries/wasmlib/core/datastream.hpp:747-829 | strings are ordered by their bytes |
| `CodecOrder.NumberSets` | libraries/wasmlib/core/datastream.hpp:747-785 | the values of a set of numbers are exactly the ascending lists of them |
| `CodecOrder.NumberMaps` | libraries/wasmlib/core/datastream.hpp:790-829 | the values of a map with numbers for keys are exactly the lists of entries with ascending keys |
| `CodecOrder.TypedInOrder` | libraries/wasmlib/core/datastream.hpp:747-829 | sets and maps are in the order of their numbers or strings |
| `CodecOrder.SetHolds` | libraries/wasmlib/core/datastream.hpp:775-785 | a set holds exactly what is put into it |
| `CodecOrder.MapHolds` | libraries/wasmlib/core/datastream.hpp:819-829 | a map holds exactly the first entry for each key |
| `Codec.InsertKeeps` | libraries/wasmlib/core/datastream.hpp:775-829 | `emplace` keeps a container sorted and all its elements, and adds the new one exactly if its key is new |
| `CodecCorrect.RoundTrip` | libraries/wasmlib/core/datastream.hpp:265-933 | for every type and value, unpacking what was packed gives the value and exactly the bytes after it |
| `CodecCorrect.PrefixFree` | libraries/wasmlib/core/datastream.hpp:265-933 | no encoding of a type is the beginning of another one |
| `CodecCorrect.Injective` | libraries/wasmlib/core/datastream.hpp:265-933 | values are equal exactly when their encodings are |
| `CodecCorrect.DecTyped` | libraries/wasmlib/core/datastream.hpp:265-933 | whatever the bytes, a result has the type asked for and a suffix is left |
| `Streams.WriteTestExact` | libraries/wasmlib/core/datastream.hpp:85 | the signed comparison tells whether there is room if and only if the length is below 2^31 or there is room |
| `Streams.WriteTestFails` | libraries/wasmlib/core/datastream.hpp:85 | 2^31 bytes pass for a buffer of one byte |
| `Streams.Writer.Write` | libraries/wasmlib/core/datastream.hpp:84-89 | writes exactly the bytes at the position, or fails for want of room, for every length the comparison gets right |
| `Streams.Writer.WriteVar` | libraries/wasmlib/core/varint.hpp:205-214 | writes the base-128 form byte by byte |
| `Streams.Writer.Put` | libraries/wasmlib/core/datastream.hpp:265-917 | writes exactly the encoding, or fails exactly when there is no room, for every length the comparison gets right |
| `Streams.Writer.PutAll` | libraries/wasmlib/core/datastream.hpp:698-704 | elements one after another |
| `Streams.Writer.PutFields` | libraries/wasmlib/core/datastream.hpp:841-847 | fields one after another |
| `Streams.Writer.PutEntries` | libraries/wasmlib/core/datastream.hpp:798-805 | keys and values one after another |
| `StreamReads.Reader.Read` | libraries/wasmlib/core/datastream.hpp:70-75 | the bytes at the position, or failure for want of bytes |
| `StreamReads.Reader.GetByte` | libraries/wasmlib/core/datastream.hpp:121-127 | the byte at the position, or failure at the end |
| `StreamReads.Reader.ReadVar` | libraries/wasmlib/core/varint.hpp:225-234 | decodes as specified; a sixth byte is left open |
| `StreamReads.Reader.Get` | libraries/wasmlib/core/datastream.hpp:281-933 | reads exactly what unpacking the bytes ahead specifies, failures included |
| `StreamReads.Reader.GetAll` | libraries/wasmlib/core/datastream.hpp:735-742 | elements one after another |
| `StreamReads.Reader.GetSet` | libraries/wasmlib/core/datastream.hpp:775-785 | elements go into the sorted set as they are read |
| `StreamReads.Reader.GetMap` | libraries/wasmlib/core/datastream.hpp:819-829 | entries go into the sorted map as they are read |
| `Packing.PackSize` | libraries/wasmlib/core/datastream.hpp:1130-1134 | the counting stream gives the length of the encoding |
| `Packing.Pack` | libraries/wasmlib/core/datastream.hpp:1146-1153 | a buffer of the counted size is filled exactly |
| `Packing.Unpack` | libraries/wasmlib/core/datastream.hpp:1099-1104 | the value the bytes stand for, or the failure; sets and maps are in ascending order of their numbers or strings |
| `Packing.PackUnpack` | libraries/wasmlib/core/datastream.hpp:1099-1153 | a value survives packing and unpacking, whatever follows it |
| `DbKeys.IndexTableName` | libraries/wasmlib/contracts/db.hpp:82-83 | index i of a table is named by the top 60 bits and i |
| `DbKeys.KeyLayout` | libraries/wasmlib/contracts/db.hpp:180-195 | the keys as they are stored: table name and primary key; 15, name of the index and secondary key |
| `DbKeys.SKeyInjective` | libraries/wasmlib/contracts/db.hpp:190-194 | entries share a key exactly if index and secondary key are the same |
| `DbKeys.PKeyInjective` | libraries/wasmlib/contracts/db.hpp:142 | objects share a key exactly if their primary keys are the same |
| `DbKeys.PKeyNotSKey` | libraries/wasmlib/contracts/db.hpp:25 | objects and index entries never share a key |
| `DbKeys.TablesApart` | libraries/wasmlib/contracts/db.hpp:82-83 | tables that differ in the top 60 bits of their names share no object key |
| `DbKeys.IndicesApart` | libraries/wasmlib/contracts/db.hpp:82-83 | nor any entry key |
| `DbIndices.SetIndexAgrees` | libraries/wasmlib/contracts/db.hpp:186-198 | an index agrees after `set` exactly when the new key was not taken |
| `DbIndices.DelIndexAgrees` | libraries/wasmlib/contracts/db.hpp:215-219 | an index agrees after `del` exactly when the key was the stored one and no other object's |
| `DbRuns.UpdateAgrees` | libraries/wasmlib/contracts/db.hpp:174-223 | all indices agree after an update exactly when it was safe |
| `DbRuns.RunAgrees` | libraries/wasmlib/contracts/db.hpp:136-262 | after every run of safe updates all indices agree with the primary table |
| `DbRuns.EmptyAgrees` | libraries/wasmlib/contracts/db.hpp:62-134 | an empty table agrees |
| `DbRuns.OtherTableKept` | libraries/wasmlib/contracts/db.hpp:82-83 | updates of one table leave another one alone |
| `DbTables.Db.Get` | libraries/wasmlib/contracts/db.hpp:155-172 | by primary key: found exactly if there is such an object |
| `DbTables.Db.GetObject` | libraries/wasmlib/contracts/db.hpp:136-153 | by the primary key of an object |
| `DbTables.Db.FindEntry` | libraries/wasmlib/contracts/db.hpp:236-253 | one index: found exactly if an object has that key |
| `DbTables.Db.GetBy` | libraries/wasmlib/contracts/db.hpp:225-262 | by index: found exactly when a scan of the primary table finds an object with that key, and it is that object |
| `DbTables.Db.Set` | libraries/wasmlib/contracts/db.hpp:174-203 | the store afterwards; it agrees exactly when the update was safe |
| `DbTables.Db.Del` | libraries/wasmlib/contracts/db.hpp:205-223 | the store afterwards; it agrees exactly when the update was safe |
| `DbFailures.SharedKeyBreaks` | libraries/wasmlib/contracts/db.hpp:174-203 | two calls of `set` with the same secondary key after which the index does not agree |
| `DbFailures.ChangedKeyBreaks` | libraries/wasmlib/contracts/db.hpp:205-223 | a `set` and a `del` with another secondary key after which it does not |
| `DbTables.Db.WriteEntry` | libraries/wasmlib/contracts/db.hpp:188-197 | one index follows `set` |
| `DbTables.Db.WriteEntries` | libraries/wasmlib/contracts/db.hpp:186-198 | all of them do |
| `DbTables.Db.DropEntries` | libraries/wasmlib/contracts/db.hpp:215-219 | all indices follow `del` |
| `FixedBytes.SetFromBytes` | libraries/wasmlib/core/fixed_bytes.hpp:62-91 | the words are the big-endian chunks, the last one aligned to the left |
| `FixedBytes.ExtractWord` | libraries/wasmlib/core/fixed_bytes.hpp:230-240 | the bytes of one word without its padding |
| `FixedBytes.Extract` | libraries/wasmlib/core/fixed_bytes.hpp:221-245 | every chunk of the result is its word without padding |
| `FixedBytes.BuildExtract` | libraries/wasmlib/core/fixed_bytes.hpp:62-245 | building and extracting gives the same bytes, for every size |
| `FixedBytes.WordOrder` | libraries/wasmlib/core/fixed_bytes.hpp:287-350 | comparing words is comparing bytes lexicographically, also in the last word |
| `NameValues.ValueOfDigits` | libraries/wasmlib/core/name.hpp:29-32 | a name is the value of its thirteen characters |
| `NameValues.DigitsOfValue` | libraries/wasmlib/core/name.hpp:29-32 | thirteen characters are those of their value |
| `NameValues.Alphabet` | libraries/wasmlib/core/name.hpp:153-165 | `_` is 0, `1` to `5` are 1 to 5, `a` to `z` are 6 to 31, for reading and for printing |
| `NameValues.CharacterBits` | libraries/wasmlib/core/name.hpp:109-132 | character i of a name is five bits from the top, the thirteenth the low four |
| `Names.SymbolsOfAlphabet` | tools/include/wasm/utils.hpp:64-70 | the tools read the same alphabet |
| `NameValues.ParsePrinted` | libraries/wasmlib/core/name.hpp:109-259 | parsing the text of any 64-bit name gives it back |
| `NameValues.PrintedParse` | libraries/wasmlib/core/name.hpp:109-259 | the text of a parsed name is what was parsed without underscores at its end |
| `Names.FromString` | libraries/wasmlib/core/name.hpp:109-132 | accepts exactly the names and gives their value |
| `Names.StringToName` | tools/include/wasm/utils.hpp:72-89 | the value of the symbols, for every text |
| `NamePrint.WriteAsString` | libraries/wasmlib/core/name.hpp:243-259 | the text of the name, if thirteen characters fit, and nothing past it is written |
| `NamePrint.Length` | libraries/wasmlib/core/name.hpp:169-184 | the length of the text |
| `NamePrint.Fill` | tools/include/wasm/utils.hpp:126-134 | the thirteen characters, filled in from the end |
| `NamePrint.NameToString` | tools/include/wasm/utils.hpp:125-143 | the same text as the library prints, except for zero |
| `NamePrint.ValidateName` | tools/include/wasm/utils.hpp:91-123 | accepts exactly the names without an underscore at the end |
| `NamePrint.BothRead` | tools/include/wasm/utils.hpp:72-123 | every text that is accepted is the same name to the library and to the tools |
| `NameSuffix.Suffix` | libraries/wasmlib/core/name.hpp:189-217 | prints as the text after the last underscore |
| `NameSuffix.LeadingUnderscore` | libraries/wasmlib/core/name.hpp:206-207 | the suffix of `_a` is `a`, not `_a` |

## Left out

- The host: `db_*`, `wasm_assert`, the page counter and `getchar` are a map, explicit outcomes and parameters of the model; `printn` and the other printing imports do not appear.
- `calloc`: a multiplication and a `memset` around `malloc`; it clears through a null pointer when `malloc` fails.
- `MemoryHeap.Memory.Malloc`: sizes for which the sum wraps are excluded; `HeapFailures` has what the test then says, and what a program does with such a block is not modelled.
- `MemoryManager.Manager.Malloc`: requests whose sum wraps in the active heap are excluded, as they are for `MemoryHeap.Memory.Malloc`.
- `MemoryManager.Manager.Realloc`: the same requests are excluded, and after an unsafe resize nothing but the damage is stated.
- `MemoryManager.Manager.Free`: a pointer into a heap that is not that of a live block is excluded; freeing one is not modelled.
- `LinearMemory.Linear.constructor`: memories of 2 GiB and more are excluded, because bit 31 of a header is the allocation flag.
- Calls of `sbrk` from other files: the model has only the allocator moving the break, so that heaps 2 to 15 are never used.
- A BrainF head register is the distance from the start of the tape: addresses that wrap around the 32-bit space are not modelled, and neither is overflow of the `int` that counts a run.
- `BrainFCorrect.CompilerCorrect`: with bounds checking it needs a tape of at least one cell, as `BrainFCorrect.CompiledStaysOnTape` does; `BrainFCorrect.CorrectExactly` shows that it has to.
- LLVM object management, names of registers and blocks, and the module around the function.
- The IR builder is a value that the parser object holds and replaces, not a graph of mutable LLVM objects.
- `Ropes.Rope.AppendString`: a new node is made with its right child instead of being linked to it in a second step; nodes are never freed.
- `rope::append` for character arrays, which counts the terminating NUL, and the field `last`, which is never read.
- Wrap-around of the 32-bit `size` of a rope, of a packed size, and of stream positions.
- `operator|` of uint128, which returns its right operand, `popcount`, and the conversions to other integer types.
- Varint input that is longer than its canonical form past 32 bits: the shift is undefined, and the model says so.
- `Streams.Writer.Write`: lengths of 2^31 and more that do not fit, which the signed comparison lets through, are excluded, as are such encodings from `Streams.Writer.Put`; the copy past the buffer is not modelled.
- `Codec.Text` stands for `std::string` and `std::vector<char>`, and `Codec.Less` orders its bytes as unsigned, as `std::string` does; sets and maps keyed by `std::vector<char>`, which order them as signed, are not modelled.
- Vectors that are resized to a length read from the stream before their elements are: exhaustion of memory is not modelled.
- `binary_extension`, `ignore`, C arrays, and the reflection that lists the fields of a struct (a struct is a tuple).
- `DbTables.Db.Set`: a table whose objects or keys pack to no bytes, or whose name is 0x0F, is excluded by `DbKeys.TableOk`; `db_get` could not tell such entries from missing ones.
- `fixed_bytes` from words wider than one byte, whose last shift counts bytes where it should count words.
- `asset`, `symbol`, `regid`, `time`, `hash256`, `strings`, `check`, `print`, `simple_malloc.cpp`: thin, or easy beside the above.
- `abigen.hpp`, `codegen.hpp`, `gen.hpp`, `abimerge.hpp`, the LLVM headers, and the other examples: driven by objects outside the repository.
