# MiraBox SyncRGB in Dafny

A verification project for five parts of MiraBox SyncRGB, its OpenRGB-based server and
its PawnIO driver: the Pawn abstract machine with its image loader, hot-plug device
reconciliation, the SDK packet layer, the keyboard keymap editor, and profile files.
Each part is modelled twice: as functions on values, about which the theorems are
proved, and, where the source changes things step by step, as classes and loops whose
contracts tie them to those functions.

`dafny verify dfyconfig.toml` checks everything.

## The parts

**The Pawn machine** (`Bitwise`, `LittleEndian`, `Cells`, `Alu`, `Memories`,
`Machine`, `Amx`, `PageAllocator`, `Loader`, `LoaderObject`, `Dispatch`). A cell is an
unsigned 64-bit number with wrap-around written out. Host memory is one sequence of
cells and a host pointer is an index into it, so that segments and buffers may
overlap, abut or be apart. `Machine.Step` is the interpreter with all opcodes;
`Machine.Loop` is the loop of `call_raw` with fuel, and a step budget of the
single-step callback bounds it. An outcome is the next machine, an error with the
machine at that moment, or `Undefined` where C++ gives the source no meaning. The
host's callbacks are a function of the turn, the callback number and the machine.
`AmxObject.Amx` is the object with its registers as fields; its methods are proved
to do what the functions say. On top of it:

- `Instructions` and `Arithmetic` say what each instruction does, by the number of its code cell,
- `Simulation` relates the paged and the contiguous backing,
- `RunInvariant` shows what no run can change and how runs are bounded,
- `Traces` and `CallDiscipline` show what calls and returns restore, and `CalmHost` that their premises can be met,
- `HostEntry` shows what a host call puts on the stack, and `ImageLayout` what an image's bytes become,
- `ByteMasks` and `ByteMemory` turn the shift-and-mask accesses into a flat byte array,
- `BlockOps` treats the block loops and the case table.

**Hot-plug** (`Reconcile`, `Devices`, `HotPlug`, `Notices`, `ResourceManager`). A controller is
its object identity and its description. `HotPlug.Lists` holds the manager's lists
with a log of deletions and one of broadcasts; `ResourceManager.Manager` is the object
whose loops edit the lists in place. `Notices` says what the notices contain.

**Packets** (`Packets`, `Senders`, `NetworkThreads`). Sender threads are lists of
statements, a schedule picks the next thread, and a mutex orders them. The receiver
reads from a socket that hands out any positive number of bytes, or fails.

**Keymap** (`Keymap`, `KeyboardLayout`, `Scripts`, `MatrixMap`, `Fills`). Edits of the sorted key list are
related to lookups by row and column, and the matrix made of the list to the searches
of it in the JSON-RPC answers. `Scripts` has the lookups after each kind of edit.

**Profiles** (`Profiles`). The writer and the reader of profile files.

## Where the code and its intent differ

The model follows the code. For each of these the theorems named say exactly when the
code does what is meant, or what it does instead.

- `map` counts a run of free pages but writes from the run's last page on
  (PawnIO/PawnPP/amx.h:155-181). `PageAllocator.MapExact` gives the exact condition
  under which that is harmless; buffers of at most one page always are.
- OP_CMPS clears PRI before it uses it as an address (PawnIO/PawnPP/amx.h:1026-1029):
  `BlockOps.CompareExact`.
- `removed` indices are taken after the survivors were moved
  (RGBServer/ResourceManager.cpp:866-943): `Reconcile.ReplayExact`.
- Unregistering a controller takes it off the list before the lists are compared, so
  no disconnect is announced (RGBServer/ResourceManager.cpp:451-469): `HotPlug.UnplugSync`.
- A cleanup while an earlier scan is unfinished forgets the controllers registered
  since (RGBServer/ResourceManager.cpp:1293-1310): `HotPlug.AccountExact`.
- I2C addresses are searched for as text, and a HID device matches an old device of any
  other kind (RGBServer/ResourceManager.cpp:304-322): `Devices.IdentityExact`,
  `Devices.I2cExact`; `Devices.I2cTakesWrongPlace` is an input on which it goes wrong.
- A wrong magic byte is logged and consumed (RGBServer/NetworkServer.cpp:598-602):
  `Packets.MagicExact` says when that makes no difference, `Packets.StrayByte` what a
  stray byte before any packet is taken for.
- A load that fails keeps the table entries it has read, and the next load on the same
  loader adds to them (PawnIO/PawnPP/amx_loader.h:291-378): `ImageLoader.RetryExact`,
  `ImageLoader.TableOnTop`; `ImageLoader.RetryInput` is an image on which it goes wrong.
- SwapKey inserts one place too early, and does nothing past the last key
  (RGBServer/KeyboardLayoutManager/KeyboardLayoutManager.cpp:712):
  `Keymap.SwapSortedExact`, `Keymap.SwapLooks`. So the insert-row edit misplaces its
  key whenever rows come before and after it: `KeyboardLayout.InsertRowOrderly`.
- InsertRow and RemoveRow read `keymap[key_idx]` at the end of the list too
  (RGBServer/KeyboardLayoutManager/KeyboardLayoutManager.cpp:816-818, 863):
  `KeyboardLayout.RowEditsReadInside` says when; the list is the same whatever they find.
- Saving sizes stops at the first remote or virtual controller instead of skipping it
  (RGBServer/ProfileManager.cpp:90-94): `Profiles.SizesExact`.
- The profile reader does not get past a zero length word
  (RGBServer/ProfileManager.cpp:203-223): `Profiles.ReaderEnds`. The header it
  compares with is "RGBSRV_PROFILE1", where the comment names another text.

## Model

| member | source | states |
|---|---|---|
| Simulation.RunSimulation | PawnIO/PawnPP/amx.h:431-448 | every run with the data on a page and the code on a page or contiguous is matched turn for turn by the contiguous backing, with equal registers and equal segments, when it returns, when it is out of fuel, and when it stops for any reason other than a failed memory access, with the same error; if no executed instruction reads a segment base (OP_PUSHR_PRI, OP_LCTRL 0 or 1) and the host treats related machines alike in every callback that does not itself fail to access memory |
| Simulation.CallSimulation | PawnIO/PawnPP/amx.h:451-468 | the same for a whole host call, from pushing the arguments on: it returns with the same registers, so the same PRI, or fails with the same error unless a memory access failed |
| Simulation.SimTick | PawnIO/PawnPP/amx.h:441-444 | one turn, whatever the instruction: related machines stay related, whether it goes on or stops for any reason but a failed memory access |
| Simulation.PagedIsStrict | PawnIO/PawnPP/amx.h:130-142 | through a page table with the segment on one page an access succeeds exactly when the address is cell-aligned and below the segment size |
| Simulation.ContiguousIsLoose | PawnIO/PawnPP/amx.h:207-212 | through a contiguous buffer an access succeeds exactly when the address is below the size, aligned or not |
| Simulation.BackingsRelated | PawnIO/PawnPP/amx.h:278-287 | the relation of the simulation holds between the machine on two page tables and the machine on two contiguous backings at base 0 |
| Dispatch.DispatchIsSame | PawnIO/PawnPP/amx_loader.h:180-192 | the loader's own dispatch treats related machines alike whenever the hooks and natives behind it do, memory faults aside |
| Dispatch.ByValueIsGood | PawnIO/PawnIO/src/vm.cpp:91-235 | natives whose parameters are plain cells do, and such a host also keeps the frame: the premises on hosts can be met |
| Dispatch.LoadedRelated | PawnIO/PawnIO/src/vm.cpp:58-58 | the machine a load sets up, with contiguous code and paged data as the driver has it, is related to the one with contiguous data |
| Dispatch.LoadedCallSimulation | PawnIO/PawnIO/src/vm.cpp:58-58 | so host calls on a loaded image, through its dispatch, are matched on contiguous data |
| RunInvariant.RunKeepsCode | PawnIO/PawnPP/amx.h:431-448 | no run of call_raw, finished, failed or unfinished, changes a code cell, COD, DAT or STP, when code and data cells are apart and the callback keeps its own promise |
| RunInvariant.TickFrame | PawnIO/PawnPP/amx.h:387-402 | one turn writes only host cells that data addresses reach, and keeps COD, DAT, STP and both translations |
| RunInvariant.BudgetBoundsRun | PawnIO/PawnPP/amx.h:439-445 | a single-step callback that succeeds at most n times makes every run end within n turns, whatever the fuel |
| RunInvariant.MoreFuel | PawnIO/PawnPP/amx.h:439-445 | a run that has ended ends the same way with more fuel, so the bound picks the run of the program |
| CallDiscipline.InvokeReturns | PawnIO/PawnPP/amx.h:855-876 | for calls nested to any depth whose bodies are stack-balanced and leave the saved cells of live frames alone, whatever they and the callbacks do to FRM and the rest of memory: OP_RETN restores FRM, resumes just after the OP_CALL and pops exactly the arguments and their size cell |
| CallDiscipline.RunKeepsFrames | PawnIO/PawnPP/amx.h:855-876 | a whole disciplined run keeps every saved cell of every live frame and pops past none |
| Traces.FollowKeeps | PawnIO/PawnPP/amx.h:439-445 | what plain turns and calls keep, a run with calls nested to any depth keeps |
| CallDiscipline.HostCallRestores | PawnIO/PawnPP/amx.h:405-468 | a host call of a disciplined function returns with FRM and STK as before it, under any host that keeps the frame registers and the saved cells of live frames |
| HostEntry.EntryLayout | PawnIO/PawnPP/amx.h:451-468 | a host call enters its function with a zero return address on top, then the size of the arguments, then the arguments with the first one on top; no other host cell and no register but STK and CIP changes |
| HostEntry.EntryRoom | PawnIO/PawnPP/amx.h:405-413 | it is entered exactly when all of that fits into the data segment below the stack pointer; else it is a memory fault |
| HostEntry.CallStarts | PawnIO/PawnPP/amx.h:431-468 | the call runs from that entry, or ends with the fault |
| CalmHost.NestedCallReturns | PawnIO/PawnPP/amx.h:451-468 | an instance that meets all premises, with a call inside: a host call, with any arguments, of the function OP_PROC, OP_CONST_PRI 0, OP_PUSH_PRI, OP_CALL, OP_RETN that calls the function OP_PROC, OP_RETN, under a host that does nothing, returns after seven turns with FRM and STK as before |
| CallDiscipline.StepIsFrameTurn | PawnIO/PawnPP/amx.h:855-876 | what OP_CALL, OP_PROC and OP_RETN do to the stack, the frame and CIP, from the executed instruction itself |
| CallDiscipline.BodyLoops | PawnIO/PawnPP/amx.h:439-445 | the loop of call_raw takes exactly the turns of the disciplined run and stops when the zero return address is popped |
| ByteMemory.BytesRefine | PawnIO/PawnPP/amx.h:662-686 | any sequence of OP_LODB_I and OP_STRB_I, rejected ones included, gives the answers of, and leaves the segment as, a flat little-endian byte array |
| ByteMemory.StoreBytes | PawnIO/PawnPP/amx.h:730-754 | one byte store writes exactly its own bytes, or is rejected without effect |
| ByteMemory.LoadBytes | PawnIO/PawnPP/amx.h:662-686 | one byte load gives the little-endian value of its bytes, or is rejected |
| ByteMasks.MaskedStore | PawnIO/PawnPP/amx.h:741-749 | the shift-and-mask expression of OP_STRB_I replaces the addressed bytes of the cell and nothing else |
| ByteMasks.MaskedLoad | PawnIO/PawnPP/amx.h:673-681 | the shift-and-mask expression of OP_LODB_I is the value of the addressed bytes |
| ByteMasks.MaskedSpan | PawnIO/PawnPP/amx.h:665-669 | the mask test for an access across cells is the arithmetic one |
| BlockOps.FillWritesBlock | PawnIO/PawnPP/amx.h:1036-1043 | OP_FILL writes exactly its block, or on a fault exactly the completed prefix |
| BlockOps.MoveMovesBlock | PawnIO/PawnPP/amx.h:1013-1022 | OP_MOVS, completed or faulted: done cells are moved, an upward overlap repeats the first cells, nothing else changes |
| BlockOps.MoveCopies | PawnIO/PawnPP/amx.h:1013-1022 | the target is a copy of the original block when ALT <= PRI or the blocks are disjoint |
| BlockOps.CompareUsesAddressZero | PawnIO/PawnPP/amx.h:1024-1034 | OP_CMPS compares the block at ALT with the block at data address 0, because PRI is cleared before it is read: the first difference, if the segment holds it, otherwise a fault when a block leaves the segment, with PRI zero, and else zero |
| BlockOps.CompareExact | PawnIO/PawnPP/amx.h:1024-1034 | so, for blocks inside the segment, OP_CMPS compares those at PRI and ALT for every memory content if and only if PRI is 0 or the block is empty |
| BlockOps.SwitchJumps | PawnIO/PawnPP/amx.h:1065-1090 | OP_SWITCH jumps to the target of the first matching record, or to the default |
| BlockOps.FindCaseMatches | PawnIO/PawnPP/amx.h:1076-1088 | the record loop finds the first match and ends with the record count |
| Alu.SdivIsFloored | PawnIO/PawnPP/amx.h:921-931 | OP_SDIV is floored division for every nonzero divisor, and is undefined exactly for the smallest number over -1 |
| Alu.XorSign | PawnIO/PawnPP/amx.h:927-927 | the sign test of OP_SDIV by exclusive or tells whether the signs differ |
| Instructions.FetchFault | PawnIO/PawnPP/amx.h:589-591 | a step that cannot fetch its instruction stops with a code fault, past the cell it looked at |
| Instructions.NoInstruction | PawnIO/PawnPP/amx.h:1114-1115 | numbers from 74 on are no instructions |
| Instructions.OperandFault | PawnIO/PawnPP/amx.h:595-595 | a missing operand is a code fault past both cells; which numbers have operands is listed |
| Instructions.LoadStep | PawnIO/PawnPP/amx.h:622-841 | code cells 1 to 7 and 27: the cell at the operand, in the frame, through a reference, through PRI or in the stack comes into PRI or ALT, or the step faults |
| Instructions.StoreStep | PawnIO/PawnPP/amx.h:706-728 | code cells 13 to 16 put PRI into the cell at their address and change nothing else, or fault |
| Instructions.CountStep | PawnIO/PawnPP/amx.h:996-1011 | code cells 60 and 63 move the cell behind PRI up or down by one, wrapping around |
| Instructions.SwapStep | PawnIO/PawnPP/amx.h:1092-1104 | code cells 71 and 72 exchange PRI or ALT with the top of the stack |
| Instructions.ByteFault | PawnIO/PawnPP/amx.h:662-754 | code cells 8 and 17: which byte accesses are refused, fault or succeed, for every width |
| Instructions.LctrlStep | PawnIO/PawnPP/amx.h:762-790 | code cell 19 copies the register of the operand's number to PRI, or refuses it |
| Instructions.SctrlStep | PawnIO/PawnPP/amx.h:792-811 | code cell 20 sets exactly the register of the operand's number, for HEA, STK, FRM and CIP alone |
| Instructions.NopStep | PawnIO/PawnPP/amx.h:619-620 | code cell 0 does nothing |
| Instructions.AddrStep | PawnIO/PawnPP/amx.h:697-704 | code cells 11 and 12 give the address of a place in the frame |
| Instructions.ReserveStep | PawnIO/PawnPP/amx.h:843-853 | code cells 28 and 29 move STK or HEA by the operand, with the new STK or the old HEA in ALT |
| Instructions.PushStep | PawnIO/PawnPP/amx.h:819-828 | code cells 22 to 24: STK moves down and the cell there becomes PRI, ALT or PRI + DAT, or the step faults with STK moved |
| Instructions.PopStep | PawnIO/PawnPP/amx.h:830-835 | code cells 25 and 26: the top comes into PRI or ALT and STK moves up |
| Instructions.ProcStep | PawnIO/PawnPP/amx.h:855-858 | code cell 30 pushes FRM and makes the top of the stack the frame |
| Instructions.CallStep | PawnIO/PawnPP/amx.h:872-876 | code cell 33 pushes the address behind it and goes to its own address plus the operand |
| Instructions.JumpStep | PawnIO/PawnPP/amx.h:878-893 | code cells 34 to 36 go to their own address plus the operand: always, when PRI is zero, when it is not |
| Instructions.RetStep | PawnIO/PawnPP/amx.h:860-863 | code cell 31 pops FRM and CIP, and leaves what it popped when the next pop faults |
| Instructions.RetnStep | PawnIO/PawnPP/amx.h:865-870 | code cell 32 pops the size and as many bytes besides |
| Instructions.HaltStep | PawnIO/PawnPP/amx.h:1045-1054 | code cell 67 stops with the operand in PRI, 68 when PRI is above the operand |
| Instructions.SwitchStep | PawnIO/PawnPP/amx.h:1065-1090 | code cell 70 over a table at its own address plus the operand goes to the first match or the default |
| Instructions.SwitchFaults | PawnIO/PawnPP/amx.h:1068-1075 | a table without its tag is refused, one cut off in its head is a fault |
| Instructions.BlockStep | PawnIO/PawnPP/amx.h:1013-1043 | code cells 64 to 66 are the block operations |
| Instructions.HostStep | PawnIO/PawnPP/amx.h:1056-1112 | code cells 69 and 73 call the host with the operand or the break number, keep what it makes of PRI, HEA and memory, and put the frame registers back |
| Instructions.TurnStep | PawnIO/PawnPP/amx.h:439-445 | a turn calls the host with the single-step number first and executes nothing when it fails |
| Instructions.RunEnds | PawnIO/PawnPP/amx.h:439-448 | the loop goes from turn to turn, returns the first machine at address zero, and fails with the error and the machine of a turn that stops |
| Arithmetic.MoveStep | PawnIO/PawnPP/amx.h:688-695 | code cells 9, 10 and 21: constants and exchange |
| Arithmetic.SumStep | PawnIO/PawnPP/amx.h:933-939 | code cell 44 leaves the sum of PRI and ALT in PRI; 45 leaves a PRI that with the old one sums to ALT; nothing else but CIP changes |
| Arithmetic.PriStep | PawnIO/PawnPP/amx.h:989-1003 | code cells 58 and 61: PRI one up or one down, wrapping around |
| Arithmetic.AltStep | PawnIO/PawnPP/amx.h:992-1006 | code cells 59 and 62: the same of ALT |
| Arithmetic.TestStep | PawnIO/PawnPP/amx.h:953-971 | code cells 49, 52 and 53: PRI is zero, equal to ALT, different from it |
| Arithmetic.OrderStep | PawnIO/PawnPP/amx.h:973-987 | code cells 54 to 57 compare PRI with ALT as signed numbers |
| Arithmetic.NegStep | PawnIO/PawnPP/amx.h:957-959 | code cell 50 negates the signed number, undefined exactly when that does not fit |
| Arithmetic.MultiplyStep | PawnIO/PawnPP/amx.h:917-919 | code cell 42 multiplies signed numbers, undefined exactly when the product does not fit |
| Arithmetic.DivideStep | PawnIO/PawnPP/amx.h:921-931 | code cell 43: floored quotient in PRI and remainder in ALT; zero divisors stop the run |
| Arithmetic.BitStep | PawnIO/PawnPP/amx.h:941-963 | code cells 46, 47, 48 and 51, for each of the 64 bits |
| Arithmetic.AlignStep | PawnIO/PawnPP/amx.h:756-760 | code cell 18 flips in PRI the bits of 8 - operand, for operands below 8 |
| Arithmetic.ShiftStep | PawnIO/PawnPP/amx.h:895-915 | code cells 37 to 41: product modulo the cell, quotient and floored quotient by a power of two, and the same as bits moved, with zeros or the sign moving in; undefined from 64 on |
| AmxObject.Amx.Push | PawnIO/PawnPP/amx.h:405-413 | moves STK down and writes, or faults, as the step function says, on the object's own fields |
| AmxObject.Amx.Pop | PawnIO/PawnPP/amx.h:415-423 | reads the top and moves STK up, or faults |
| AmxObject.Amx.FireCallback | PawnIO/PawnPP/amx.h:387-402 | restores ALT, FRM, CIP, STP and STK after the host's function |
| AmxObject.Amx.LoadBytes | PawnIO/PawnPP/amx.h:662-686 | OP_LODB_I by masks and shifts |
| AmxObject.Amx.StoreBytes | PawnIO/PawnPP/amx.h:730-754 | OP_STRB_I by masks and shifts |
| AmxObject.Amx.ExecFlow | PawnIO/PawnPP/amx.h:855-893 | the procedure and jump instructions on the object |
| AmxObject.Amx.ExecSwitch | PawnIO/PawnPP/amx.h:1065-1090 | the case table loop |
| AmxObject.Amx.MoveCells | PawnIO/PawnPP/amx.h:1013-1022 | the loop of OP_MOVS |
| AmxObject.Amx.CompareCells | PawnIO/PawnPP/amx.h:1024-1034 | the loop of OP_CMPS |
| AmxObject.Amx.FillCells | PawnIO/PawnPP/amx.h:1036-1043 | the loop of OP_FILL |
| AmxObject.Amx.Execute | PawnIO/PawnPP/amx.h:617-1116 | all instructions: the object ends in the state, and with the error, of the step function, whose meaning the rows of Instructions and Arithmetic give |
| AmxObject.Amx.NextInstruction | PawnIO/PawnPP/amx.h:589-595 | fetch and decode |
| AmxObject.Amx.Step | PawnIO/PawnPP/amx.h:498-1126 | one instruction, from fetch to result |
| AmxObject.Amx.RunLoop | PawnIO/PawnPP/amx.h:439-445 | the loop, for every run that is over after some number of turns |
| AmxObject.Amx.CallRaw | PawnIO/PawnPP/amx.h:431-448 | push of the zero return address, the loop, and PRI as result |
| AmxObject.Amx.Call | PawnIO/PawnPP/amx.h:451-468 | arguments last to first, their size in bytes, then call_raw: the stack that EntryLayout describes, then the run |
| PageAllocator.PagedBuffers.Map | PawnIO/PawnPP/amx.h:144-183 | the table after map, with the search for a run of free pages and the write from the run's last page as coded, and whether that write stays inside the table |
| PageAllocator.PagedBuffers.Unmap | PawnIO/PawnPP/amx.h:185-195 | clears the entries of the size's pages from the address's page on, and tells whether they are inside the table |
| PageAllocator.ScanFinds | PawnIO/PawnPP/amx.h:159-172 | the search stops at the first page that ends a run of enough free pages, and fails exactly when there is none |
| PageAllocator.MapExact | PawnIO/PawnPP/amx.h:155-181 | with pages in use anywhere, mapping leaves every used page alone and stays inside the table, whatever the buffer, if and only if the pages from the found run's last one on are free for the whole size; it finds no room if and only if there is no free run |
| PageAllocator.MapOnEmpty | PawnIO/PawnPP/amx.h:155-181 | so into an empty table it is harmless if and only if the size spans at most 16 of the 32 pages |
| PageAllocator.MapReaches | PawnIO/PawnPP/amx.h:130-183 | where it is harmless, every cell of the buffer, over all its pages, is reached from the answered address on, and every other address translates as before |
| PageAllocator.UnmapUndoesRun | PawnIO/PawnPP/amx.h:144-195 | and unmap of that address and size gives back the table |
| PageAllocator.MapOne | PawnIO/PawnPP/amx.h:144-183 | a buffer of at most one page goes to the first free page, and only that entry changes |
| PageAllocator.UnmapOne | PawnIO/PawnPP/amx.h:185-195 | unmap of a live mapping frees its page and no other |
| PageAllocator.UnmapUndoesMap | PawnIO/PawnPP/amx.h:144-195 | unmap after map restores the table |
| PageAllocator.RunsHold | PawnIO/PawnPP/amx.h:144-195 | over any sequence of map and unmap of such buffers, live mappings occupy distinct pages and every used page belongs to one |
| PageAllocator.RunsFromEmpty | PawnIO/PawnPP/amx.h:123-195 | so from the table of a new backing |
| PageAllocator.TranslateOwned | PawnIO/PawnPP/amx.h:130-142 | translate succeeds exactly for aligned addresses inside a live mapping and lands in that mapping's buffer |
| PageAllocator.TranslateInjective | PawnIO/PawnPP/amx.h:130-142 | with disjoint buffers no two addresses translate to the same host cell |
| LittleEndian.ReadLe | PawnIO/PawnPP/amx_loader.h:29-40 | read_le is the little-endian value of the bytes, for every width |
| ImageLoader.VerdictExact | PawnIO/PawnPP/amx_loader.h:209-378 | init accepts exactly the well-formed images: magic, versions, flags, entry size, ordered sections that divide, terminated names, offered natives |
| ImageLoader.CellsAtIndex | PawnIO/PawnPP/amx_loader.h:76-102 | cell i of a section is the little-endian value of its eight bytes |
| ImageLoader.AddressTableIs | PawnIO/PawnPP/amx_loader.h:291-311 | the publics and pubvars tables exist exactly when every name is terminated, and map each name to its last entry's address |
| ImageLoader.ResolveAllIs | PawnIO/PawnPP/amx_loader.h:316-347 | all natives resolve exactly when each is named and offered, entry i to the callback first offered under its name |
| ImageLoader.PushedIs | PawnIO/PawnPP/amx_loader.h:316-350 | on a failure the callbacks that stay pushed are those of the entries before the first one that has no name or is not offered |
| ImageLoader.TableOnTop | PawnIO/PawnPP/amx_loader.h:291-311 | a table read over an older one is the new table on top of the old names, and equals the new one if and only if the old one has no other names |
| ImageLoader.RetryExact | PawnIO/PawnPP/amx_loader.h:317-347 | loading a well-formed image on a loader with any tables that earlier loads left: when its callbacks are distinct, every native index finds the callback offered under its entry's name if and only if no natives were left or those left begin with the same callbacks |
| ImageLoader.RetryGoesWrong | PawnIO/PawnPP/amx_loader.h:333-350 | of any image whose first native is offered and whose second is not, a second load with both on offer succeeds and index 1 reaches the first one's callback |
| ImageLoader.RetryInput | PawnIO/PawnPP/amx_loader.h:209-378 | an actual image of 80 bytes on which that happens |
| ImageLoader.GoodImageTables | PawnIO/PawnPP/amx_loader.h:285-378 | a well-formed image leaves its tables on top of and behind those from before |
| ImageLoader.Resolve | PawnIO/PawnPP/amx_loader.h:333-345 | the first offered native of that name |
| LoaderObject.ReadCells | PawnIO/PawnPP/amx_loader.h:254-283 | a section is decoded reading only inside the buffer, and refused exactly when it is not ordered, inside and whole |
| LoaderObject.ReadName | PawnIO/PawnPP/amx_loader.h:301-307 | the loop that finds the end of a name |
| LoaderObject.ReadAddresses | PawnIO/PawnPP/amx_loader.h:291-311 | the table built entry by entry; on a failure the names before the bad one stay |
| LoaderObject.ReadNatives | PawnIO/PawnPP/amx_loader.h:317-347 | the callbacks pushed entry by entry, with the two ways to fail, and what stays pushed then |
| LoaderObject.Loader.ReadTables | PawnIO/PawnPP/amx_loader.h:291-378 | publics, natives, libraries and pubvars, in the order of the checks, and the three tables after it, failed or not |
| LoaderObject.Loader.Decode | PawnIO/PawnPP/amx_loader.h:230-378 | everything before mapping: the error the checks give in their order, the tables as far as it got, and on success code, data with its zeros and entry point |
| LoaderObject.Loader.Boot | PawnIO/PawnPP/amx_loader.h:380-396 | both segments mapped, COD, DAT, STP, STK and HEA set; a second load is refused |
| LoaderObject.Loader.Init | PawnIO/PawnPP/amx_loader.h:200-397 | for any buffer at all, init succeeds if and only if the image is well-formed and no load has succeeded before, and then leaves the decoded machine, laid out as ImageLaid says; the tables are as far as it got with them |
| LoaderObject.Loader.FromImage | PawnIO/PawnPP/amx_loader.h:400-403 | the constructor leaves what the image alone decides: the machine set up for it exactly when it is well-formed, and its tables |
| Dispatch.LoadedMachine | PawnIO/PawnPP/amx_loader.h:380-396 | the loaded machine has a strict data segment apart from its code, holding exactly the decoded cells, with the stack at the last data cell, whatever the sizes |
| ImageLayout.HeaderExact | PawnIO/PawnPP/amx_loader.h:212-227 | the header that is read is the one whose fields are at bytes 0, 4, 6, 7, 8, 10 and, four bytes each, 12 to 48, least significant byte first, for every buffer and header |
| ImageLayout.EntryIs | PawnIO/PawnPP/amx_loader.h:300-310 | a table entry is an address and the offset of a name that ends before the first zero byte, or has no end |
| ImageLayout.SectionBytes | PawnIO/PawnPP/amx_loader.h:77-103 | entry i of a section lies i entries behind its start |
| ImageLayout.AnswerIs | PawnIO/PawnPP/amx_loader.h:230-380 | the answer of init, each error with its exact condition on the values in the image, in the order of the checks |
| ImageLayout.EnteredIs | PawnIO/PawnPP/amx_loader.h:300-316 | a table that fails keeps the names before the first entry without one |
| ImageLayout.TablesLeft | PawnIO/PawnPP/amx_loader.h:291-378 | what any load leaves in the three tables, whatever its answer |
| ImageLayout.ImageLaid | PawnIO/PawnPP/amx_loader.h:255-288 | an accepted image leaves its words from [cod, dat) as code and from [dat, hea) as data, then zeros for as many cells as cover the 32-bit span from hea to stp; the heap after the image's own data, the stack at the last cell, and the entry point |
| ImageLayout.HeapImage | PawnIO/PawnPP/amx_loader.h:285-288 | an image of 76 bytes with stp 16384 bytes past hea is accepted and gives one data cell and 2048 zeros |
| Dispatch.SysreqReachesNative | PawnIO/PawnPP/amx_loader.h:180-192 | OP_SYSREQ i calls the callback first offered under the name of native entry i, with argument count and address from the stack, whenever the native table begins with the image's callbacks |
| Dispatch.SysreqRefuses | PawnIO/PawnPP/amx_loader.h:186-190 | an index past the table, or no argument cell, is refused |
| Dispatch.HooksRun | PawnIO/PawnPP/amx_loader.h:180-185 | the two highest callback numbers run the hooks, or nothing when a hook is not set |
| Dispatch.ImageReachesNative | PawnIO/PawnPP/amx_loader.h:180-378 | from the bytes of an image to its natives: in any run on a well-formed image loaded by a new loader, at a code cell whose bytes are OP_SYSREQ i the next instruction runs the callback first offered under the name of native entry i |
| Devices.FirstMatch | RGBServer/ResourceManager.cpp:279-347 | the first pending controller that is not matched yet and matches by type, name, description, version, serial and the location rule |
| Devices.FirstMatchIs | RGBServer/ResourceManager.cpp:277-350 | the match is the first one in the list |
| Devices.HidRule | RGBServer/ResourceManager.cpp:304-308 | a detected HID device matches every old one that agrees in all but the location |
| Devices.I2cRule | RGBServer/ResourceManager.cpp:309-322 | a detected I2C device matches when its address stands anywhere in the old location, all else agreeing |
| Devices.PlainRule | RGBServer/ResourceManager.cpp:323-327 | any other device matches only an equal one |
| Devices.LastSeparator | RGBServer/ResourceManager.cpp:313-322 | the last ", " of an I2C location, or none |
| Devices.GreedyOneToOne | RGBServer/ResourceManager.cpp:279-347 | no pending controller is matched twice, none that is not pending, and no more than registered |
| Devices.GreedyCounts | RGBServer/ResourceManager.cpp:275-347 | for matching by an identity key, greedy matching uses as many controllers of each identity as possible |
| Devices.SameExact | RGBServer/ResourceManager.cpp:2171-2173 | for matching by an identity key, the scan found the same devices if and only if old and new identities are the same multiset |
| Devices.HidOnly | RGBServer/ResourceManager.cpp:304-308 | instance: when all new devices are HID, identity is everything but the location |
| Devices.PlainOnly | RGBServer/ResourceManager.cpp:323-327 | instance: when no new device is HID or I2C, identity is the whole description |
| Devices.IdentityExact | RGBServer/ResourceManager.cpp:304-327 | on any mixture of devices matching is by identity (HID without the path, I2C by address, others whole) if and only if no pair of an old and a new device that agree otherwise is mistaken: a new HID device with an old one that is not, or a new I2C one with an old location that contains its address without having it |
| Devices.MixedScan | RGBServer/ResourceManager.cpp:2171-2173 | so a scan of any mixture in which no pair is mistaken finds the same devices if and only if old and new identities are the same multiset |
| Devices.I2cExact | RGBServer/ResourceManager.cpp:309-322 | among I2C locations with a separator matching is by address if and only if no old location contains the address of a new device with another address |
| Devices.I2cOnly | RGBServer/ResourceManager.cpp:2171-2173 | instance: I2C devices with such addresses |
| Devices.I2cTakesWrongPlace | RGBServer/Controllers/LEDStripController/LEDStripController.cpp:154-172 | on any bus, an LED strip at decimal address 4 in the place of one at 48 passes for the same device |
| HotPlug.ScanDecides | RGBServer/ResourceManager.cpp:2171-2173 | after a scan from a quiet state devices_changed is false exactly when the greedy matching found the same devices |
| Reconcile.Balance | RGBServer/ResourceManager.cpp:866-957 | old plus added equals new plus removed |
| Reconcile.NoDeltas | RGBServer/ResourceManager.cpp:866-957 | reconciling a list with itself gives no notices |
| Reconcile.ReplayExact | RGBServer/ResourceManager.cpp:899-943 | a client that applies the connects in order and then drops the disconnect indices against that snapshot gets the new list if and only if the survivors, in hardware order, are a prefix of the old list |
| Reconcile.ReplayNames | RGBServer/ResourceManager.cpp:978-991 | the same on the names that are broadcast |
| HotPlug.RunKeepsSound | RGBServer/ResourceManager.cpp:402-470 | in any run of cleanups, updates, registrations, removals and scan ends, in any order: no list has duplicates, each controller is deleted at most once, and no deleted controller is in any list |
| HotPlug.AccountExact | RGBServer/ResourceManager.cpp:1284-1311 | after an operation the hardware and pending lists still hold exactly the live controllers if and only if it is not a cleanup that drops new controllers of an unfinished scan, a removal of a pending controller, or a scan end that forgets a listed one |
| HotPlug.RunKeepsAccount | RGBServer/ResourceManager.cpp:1284-1311 | over any run of operations of which each keeps account, the lists hold exactly the controllers live at its end |
| HotPlug.ScanReplaces | RGBServer/ResourceManager.cpp:1461-1515 | a scan deletes exactly the controllers of the scan before and leaves the new ones |
| HotPlug.Lifetime | RGBServer/ResourceManager.cpp:1284-1311 | over any number of scans, plugs and unplugs the live controllers are exactly those in the hardware list |
| HotPlug.UnplugSync | RGBServer/ResourceManager.cpp:438-470 | unregistering announces no disconnect, so a client stays in step if and only if the controller was not listed |
| HotPlug.ClientHoldsList | RGBServer/ResourceManager.cpp:978-991 | a client that follows all notices holds the server's list over any number of scans and plugs |
| Notices.UpdateNotice | RGBServer/ResourceManager.cpp:845-990 | from any duplicate-free list, the one notice of an update: a connect with index and name for each new controller in ascending order, a disconnect numbered on behind the new list for each that is gone, and the length of the new list |
| Notices.RegisterNotices | RGBServer/ResourceManager.cpp:409-436 | a registration puts the controller at the end of both lists and gives its notice, and a second one of no changes when the count is not what the last registration left |
| Notices.RunShowsSize | RGBServer/ResourceManager.cpp:990-990 | after any operations in any order the last notice gives the length of the list |
| Notices.NoticesGiveSizes | RGBServer/ResourceManager.cpp:978-991 | over any scans and plugs each notice gives the length of the list that a client holds once it has followed it |
| Notices.ClientNames | RGBServer/ResourceManager.cpp:978-991 | and at the end the client holds the names of the listed controllers, as many as the last notice says |
| Notices.UnplugSize | RGBServer/ResourceManager.cpp:451-469 | after the unplug of a listed controller the client holds one more than the notice says |
| ResourceManager.Manager.PlaceAll | RGBServer/ResourceManager.cpp:866-913 | the in-place move and insert loop: hardware controllers in front, in order, the rest behind, in order, new indices noted |
| ResourceManager.Manager.FindGone | RGBServer/ResourceManager.cpp:919-946 | the leftovers and their indices |
| ResourceManager.Manager.EraseAll | RGBServer/ResourceManager.cpp:951-958 | the leftovers are erased one by one, leaving exactly the hardware list |
| ResourceManager.Manager.UpdateDeviceList | RGBServer/ResourceManager.cpp:845-994 | the three loops together: the list equals the hardware list, and what is announced is the notice of UpdateNotice, with the length of the new list |
| ResourceManager.Manager.FindMatch | RGBServer/ResourceManager.cpp:279-347 | the nested loops of the matching search |
| ResourceManager.Manager.RegisterRGBController | RGBServer/ResourceManager.cpp:267-436 | matching, the new hardware entry, and one or two updates |
| ResourceManager.Manager.UnregisterRGBController | RGBServer/ResourceManager.cpp:438-470 | removal from both lists, then an update |
| ResourceManager.Manager.Cleanup | RGBServer/ResourceManager.cpp:1284-1311 | pending is only replaced when empty; matched and hardware lists are cleared |
| ResourceManager.Manager.PreDetection | RGBServer/ResourceManager.cpp:1396-1398 | cleanup and update before a scan |
| ResourceManager.Manager.DevicesChanged | RGBServer/ResourceManager.cpp:2171-2173 | after a scan the answer is that the greedy matching did not find the same devices, so, when matching is by an identity key, that old and new identities are different multisets |
| ResourceManager.Manager.PostDetection | RGBServer/ResourceManager.cpp:1483-1515 | pending controllers that are not listed are deleted, in order |
| NetworkThreads.NetPacketHeader.InitNetPacketHeader | RGBServer/NetworkProtocol.cpp:20-33 | the header's memory image is magic and three little-endian words |
| NetworkThreads.SendPacket | RGBServer/NetworkClient.cpp:747-758 | a send function writes header and payload, and no payload when there is none |
| Packets.ParseEncode | RGBServer/NetworkServer.cpp:582-648 | a packet at the start of a stream is parsed back with nothing after it touched, whatever four bytes stand for the magic |
| Packets.HeaderIs | RGBServer/NetworkProtocol.cpp:18-33 | a header is the letters ORGB, device, packet id and size, little-endian words of four bytes |
| Packets.ParseIs | RGBServer/NetworkServer.cpp:582-648 | what is found at the start of any stream, by the words at bytes 4, 8 and 12 |
| Packets.ParsePrefix | RGBServer/NetworkServer.cpp:582-648 | of any prefix of sent packets exactly whole leading packets are received |
| Packets.StrayByte | RGBServer/NetworkServer.cpp:598-602 | a wrong magic byte is only consumed: a stray byte before any packet shifts its header by one byte, so it is taken for the packet with these other words, whose payload starts with the last size byte |
| Packets.StrayByteBeforeRequest | RGBServer/NetworkServer.cpp:598-602 | instance: a request without payload is taken for another one, and a byte is left to spoil the next |
| Packets.MagicExact | RGBServer/NetworkServer.cpp:595-603 | the receivers take exactly the packets that one insisting on the magic would take if and only if every packet they take begins with it |
| Packets.SentMagic | RGBServer/NetworkProtocol.cpp:20-33 | of any part of a stream of sent packets that is so |
| Senders.Framing | RGBServer/NetworkClient.cpp:747-812 | for every interleaving of senders under the mutex and at every moment: what k received bytes parse to is a prefix of the packets in acquisition order, all of them when no send is under way, and each thread's packets come in its order |
| Senders.AllArrive | RGBServer/NetworkClient.cpp:747-812 | when all threads are done every packet has been sent whole, each thread's in order |
| Senders.NoDeadlock | RGBServer/NetworkClient.cpp:747-812 | until all threads are done one of them can go on |
| Senders.StepConsistent | RGBServer/NetworkClient.cpp:747-812 | each step keeps: nothing half written while the mutex is free, a prefix of one packet while it is held |
| NetworkThreads.Connection.Recv | RGBServer/NetworkServer.cpp:530-565 | between one and len bytes in stream order, or failure at any time |
| NetworkThreads.Listener.ReadMagic | RGBServer/NetworkServer.cpp:582-603 | four bytes one at a time, consumed whether or not they match |
| NetworkThreads.Listener.ReadFully | RGBServer/NetworkServer.cpp:609-645 | the loops for header and payload get exactly their bytes however the stream is chopped |
| NetworkThreads.Listener.ReadPacket | RGBServer/NetworkServer.cpp:576-648 | one round is one parse of the stream |
| NetworkThreads.Listener.ListenThread | RGBServer/NetworkClient.cpp:461-537 | the thread hands on the leading packets of the stream, and all of them unless the connection fails |
| NetworkThreads.Receive | RGBServer/NetworkServer.cpp:567-648 | end to end: a listener on what k bytes of the senders' wire brought gets the first packets in acquisition order, and all of them when all bytes of completed sends have arrived |
| Keymap.ByteSteps | RGBServer/KeyboardLayoutManager/KeyboardLayoutManager.cpp:608-608 | row and column numbers are bytes and come round past 255 |
| Keymap.InsertLooks | RGBServer/KeyboardLayoutManager/KeyboardLayoutManager.cpp:543-617 | InsertKey shifts lookups of its row right from the edit column, puts the new name there (also the unused one), and changes nothing else, end of list included |
| Keymap.InsertSorted | RGBServer/KeyboardLayoutManager/KeyboardLayoutManager.cpp:543-617 | InsertKey keeps the strict order when the row has room |
| Keymap.RemoveLooks | RGBServer/KeyboardLayoutManager/KeyboardLayoutManager.cpp:733-788 | RemoveKey shifts lookups of its row left from the edit column, used or not, and changes nothing else |
| Keymap.RemoveSorted | RGBServer/KeyboardLayoutManager/KeyboardLayoutManager.cpp:733-788 | RemoveKey keeps the strict order |
| Keymap.InsertThenRemove | RGBServer/KeyboardLayoutManager/KeyboardLayoutManager.cpp:543-788 | RemoveKey after InsertKey at the same place restores the exact list |
| Keymap.SwapSortedExact | RGBServer/KeyboardLayoutManager/KeyboardLayoutManager.cpp:637-718 | SwapKey keeps the order if and only if it does not insert a used key into an empty place between two keys |
| Keymap.SwapLooks | RGBServer/KeyboardLayoutManager/KeyboardLayoutManager.cpp:637-718 | SwapKey changes the lookup at its own place only, to the new name, except past the last key, where it does nothing |
| Keymap.InsertThenRemoveRow | RGBServer/KeyboardLayoutManager/KeyboardLayoutManager.cpp:790-872 | RemoveRow after InsertRow restores the exact list |
| Keymap.RowInsertLooks | RGBServer/KeyboardLayoutManager/KeyboardLayoutManager.cpp:790-829 | InsertRow leaves an empty row and shifts later rows by one |
| Keymap.RowRemoveLooks | RGBServer/KeyboardLayoutManager/KeyboardLayoutManager.cpp:831-872 | RemoveRow removes its row and shifts later rows back |
| KeyboardLayout.ApplySortedExact | RGBServer/KeyboardLayoutManager/KeyboardLayoutManager.cpp:494-541 | an edit of a sorted list with room keeps the order if and only if it is orderly |
| KeyboardLayout.ScriptSorted | RGBServer/KeyboardLayoutManager/KeyboardLayoutManager.cpp:494-541 | a whole script of orderly edits keeps the order |
| KeyboardLayout.InsertRowOrderly | RGBServer/KeyboardLayoutManager/KeyboardLayoutManager.cpp:518-523 | the insert-row edit keeps the order if and only if its key is unused, no row comes before, or no key is on the row or after it |
| KeyboardLayout.RowEditsReadInside | RGBServer/KeyboardLayoutManager/KeyboardLayoutManager.cpp:831-872 | with an up-to-date row count InsertRow always reads a key; RemoveRow does if and only if the row is not the last |
| KeyboardLayout.RowRoundTrip | RGBServer/KeyboardLayoutManager/KeyboardLayoutManager.cpp:790-872 | RemoveRow(r) after InsertRow(r) finds its later row and restores the exact list |
| KeyboardLayout.DimensionsFit | RGBServer/KeyboardLayoutManager/KeyboardLayoutManager.cpp:1049-1077 | updated dimensions hold every key if and only if neither uint8 count wraps |
| KeyboardLayout.Layout.InsertKey | RGBServer/KeyboardLayoutManager/KeyboardLayoutManager.cpp:543-617 | the search, the insertion and the shifting loop on the object's list |
| KeyboardLayout.Layout.RemoveKey | RGBServer/KeyboardLayoutManager/KeyboardLayoutManager.cpp:733-788 | the two removal loops |
| KeyboardLayout.Layout.SwapKey | RGBServer/KeyboardLayoutManager/KeyboardLayoutManager.cpp:637-718 | replace, erase, insert or nothing |
| KeyboardLayout.Layout.InsertRow | RGBServer/KeyboardLayoutManager/KeyboardLayoutManager.cpp:790-829 | renumbering from the first key on or after the row, refused past the row count; the list does not depend on what is read past its end |
| KeyboardLayout.Layout.RemoveRow | RGBServer/KeyboardLayoutManager/KeyboardLayoutManager.cpp:831-872 | erasing a row and renumbering the later ones; the list does not depend on what is read past its end |
| KeyboardLayout.Layout.AddAltName | RGBServer/KeyboardLayoutManager/KeyboardLayoutManager.cpp:874-901 | the first key at the place gets the other name |
| KeyboardLayout.Layout.UpdateDimensions | RGBServer/KeyboardLayoutManager/KeyboardLayoutManager.cpp:1049-1077 | one more than the largest row and column, in uint8 arithmetic |
| KeyboardLayout.Layout.OpCodeSwitch | RGBServer/KeyboardLayoutManager/KeyboardLayoutManager.cpp:494-541 | the script, whose edits mean what the rows of Scripts say, with the row count of its beginning, then the dimensions |
| Scripts.InsertLast | RGBServer/KeyboardLayoutManager/KeyboardLayoutManager.cpp:502-504 | the last edit of a script, INSERT_SHIFT_RIGHT: its row's lookups shift right and the key is found at its place |
| Scripts.SwapLast | RGBServer/KeyboardLayoutManager/KeyboardLayoutManager.cpp:506-508 | SWAP_ONLY changes the lookup at its own place alone: renamed, taken away, or put there |
| Scripts.RemoveLast | RGBServer/KeyboardLayoutManager/KeyboardLayoutManager.cpp:510-512 | REMOVE_SHIFT_LEFT takes its place away and shifts the row's lookups left |
| Scripts.NothingLast | RGBServer/KeyboardLayoutManager/KeyboardLayoutManager.cpp:514-517 | INS_SHFT_ADJACENT and unknown opcodes change nothing |
| Scripts.InsertRowLast | RGBServer/KeyboardLayoutManager/KeyboardLayoutManager.cpp:519-524 | INSERT_ROW shifts later rows and leaves an empty row but for its key, or, past the row count, changes nothing |
| Scripts.RemoveRowLast | RGBServer/KeyboardLayoutManager/KeyboardLayoutManager.cpp:526-528 | REMOVE_ROW takes the row away and shifts later rows back, or, past the row count, changes nothing |
| Scripts.AltNameLast | RGBServer/KeyboardLayoutManager/KeyboardLayoutManager.cpp:530-532 | ADD_ALT_NAME changes the other name at its place and nothing else, in any list |
| KeyboardLayout.Layout.GetKeyNameAt | RGBServer/KeyboardLayoutManager/KeyboardLayoutManager.cpp:933-944 | the name of the first key at the place, or the unused name |
| KeyboardLayout.Layout.GetKeyMap | RGBServer/KeyboardLayoutManager/KeyboardLayoutManager.cpp:1012-1047 | the caller's array emptied and painted key by key |
| MatrixMap.CountMatrix | RGBServer/KeyboardLayoutManager/KeyboardLayoutManager.cpp:1012-1047 | with every key inside and one per place, the fill by count puts i in key i's cell and the empty mark everywhere else |
| KeyboardLayout.SortedFits | RGBServer/KeyboardLayoutManager/KeyboardLayoutManager.cpp:1012-1077 | a sorted list with up-to-date dimensions that did not wrap, at its own size or a larger one, has every key inside and one per place |
| MatrixMap.SearchFinds | RGBServer/JSONRPCHandler.cpp:1653-1665 | searching that matrix for i finds exactly key i's column and row |
| MatrixMap.FindCell | RGBServer/JSONRPCHandler.cpp:1653-1665 | the nested loops find the first cell with the mark in row-major order, or there is none |
| MatrixMap.LedToJson | RGBServer/JSONRPCHandler.cpp:1633-1669 | the position comes from the first zone that holds the LED and has it in its matrix |
| MatrixMap.KeyReported | RGBServer/JSONRPCHandler.cpp:1633-1669 | for a zone filled from the key list, with no earlier zone holding the LED, LED start + i is reported at key i's place |
| MatrixMap.ListLeds | RGBServer/JSONRPCHandler.cpp:1604-1631 | the nested loops list the named cells in row-major order |
| Fills.KeyMapIs | RGBServer/KeyboardLayoutManager/KeyboardLayoutManager.cpp:1012-1047 | GetKeyMap for every kind of fill, list and size: each cell holds the number, value or cell number of the last key there, or no key |
| Fills.OutsideZones | RGBServer/JSONRPCHandler.cpp:1633-1669 | a LED of no matrix zone is not reported |
| Fills.FirstZone | RGBServer/JSONRPCHandler.cpp:1633-1669 | one that its first zone's matrix shows is reported at the first cell with its number |
| Fills.ListedExact | RGBServer/JSONRPCHandler.cpp:1604-1631 | the listing has exactly the cells with a mark of one of the zone's LEDs that the controller has |
| Fills.ListedAscends | RGBServer/JSONRPCHandler.cpp:1604-1631 | row by row and from left to right |
| MatrixMap.ScanListsKeys | RGBServer/JSONRPCHandler.cpp:1604-1631 | for a sorted key list that is every key once, in key order, at its place |
| Profiles.SaveProfile | RGBServer/ProfileManager.cpp:35-121 | refused exactly for a name of nothing but NULs; the file is header, version and the descriptions, and stops at the first remote or virtual controller for sizes |
| Profiles.RemoveNullTerminatingChars | RGBServer/StringUtils.cpp:88-96 | the name without the NULs at its end and no others |
| Profiles.LoadProfileToList | RGBServer/ProfileManager.cpp:142-228 | the reader's loop watched for any number of rounds, on every file; with a round for every byte it is still reading if and only if the length words lead to a zero, and else has the whole descriptions and knows whether the file ends inside a record |
| Profiles.SaveThenLoad | RGBServer/ProfileManager.cpp:77-224 | loading recovers exactly the descriptions that saving wrote |
| Profiles.ImageStarts | RGBServer/ProfileManager.cpp:66-80 | a saved file starts with RGBSRV_PROFILE1, a zero byte and the version 5 |
| Profiles.EveryVersion | RGBServer/ProfileManager.cpp:177-224 | descriptions in a file of any version up to 5 are read back, those of a later version are not |
| Profiles.OtherFiles | RGBServer/ProfileManager.cpp:178-198 | a file that starts otherwise gives nothing |
| Profiles.LoadThenSave | RGBServer/ProfileManager.cpp:201-224 | what was loaded from a current-version file, written back, is that file if and only if the file does not end inside a record |
| Profiles.SizesExact | RGBServer/ProfileManager.cpp:86-104 | saving sizes saves all local controllers if and only if none comes after a remote or virtual one |
| Profiles.ZeroWordNeverEnds | RGBServer/ProfileManager.cpp:201-224 | a zero length word keeps the reader at its offset forever, handing on one empty description a round |
| Profiles.ReaderEnds | RGBServer/ProfileManager.cpp:201-224 | the reader never ends if and only if the length words, followed from the offset, lead to a zero; it ends at the end of the file if and only if they lead there |

## Left out

- Cell width: fixed at 64 bits, with five page index bits, as `PawnIO/PawnIO/src/vm.cpp` has them.
- `memory_backing_partial_address_space`: it works on the bits of host pointers.
- Arithmetic that C++ leaves undefined (shift counts of a cell width or more, signed overflow, the smallest number over -1) and block loops whose counter wraps around: the outcome is `Undefined`, and nothing is claimed of it.
- A host pointer past the end of host memory reads as a failed translation; in the source it is outside the callers' contract.
- Simulation.RunSimulation: assumes that the host's functions treat related machines alike, memory faults aside; Dispatch.ByValueIsGood shows it of natives that take cells by value, and those that write through references or arrays are not part of the model.
- RunInvariant.BudgetBoundsRun: assumes a single-step callback that fails from some turn on; without one a Pawn program may run forever.
- AmxObject.Amx.RunLoop: for runs that come to an end with a meaning; a run that does not end has no result to state. The same holds of CallRaw and Call.
- CallDiscipline.HostCallRestores: assumes that neither the body nor a callback writes the saved cells of a live frame; the machine has nothing that stops them.
- AmxObject.Amx.Execute: the object holds its two backings as translations of addresses; the page table itself changes only in PageAllocator.PagedBuffers.
- PageAllocator.MapExact: for sizes whose rounding up to pages does not wrap around the address space, which is every size that fits it.
- PageAllocator.RunsHold: for buffers of at most one page; what larger ones do is in MapExact, MapOnEmpty, MapReaches and UnmapUndoesRun.
- PageAllocator.PagedBuffers.Map: for calls that pass the end of the page table, which MapExact characterises, it only tells that they do; the source then writes outside the object.
- PageAllocator.PagedBuffers.Unmap: likewise for ranges that pass the end of the table.
- LoaderObject.Loader.Boot: a load after a successful one rewrites the cells that the machine has mapped, where the model leaves the machine its old ones; after an image without code cells the loader counts as used; in the source that hangs on the address of an empty vector's storage.
- LoaderObject.Loader.Init: the entry point and the tables are kept as values; get_public, get_pubvar and get_main, which only look them up, are not modelled.
- RegisterRGBController also copies modes and colors from the matched controller and loads zone sizes; only the lists are modelled.
- Callbacks and server notices other than the WebSocket ones, which carry no indices; without a WebSocket server nothing is broadcast.
- Devices.SameExact: for matching that is equality of a key on the devices at hand; Devices.IdentityExact and Devices.I2cExact say when it is.
- Mutual exclusion of scans, and threads that register during a list update: the source serialises them with its own locks.
- Senders.Framing: a send writes all its bytes; partial sends are not modelled, nor is closing the socket.
- NetworkThreads.Listener.ListenThread: payloads of 2 GiB and more, whose length the receivers hold in an int, end the model's listener; what the packets do once received is not modelled.
- Packets.ParseEncode: header words are little-endian, as on the machines OpenRGB runs on.
- Sockets, select, timeouts, thread creation, and the handlers behind the packet ids.
- Keymap.InsertLooks: a row whose last column is 255 has no room; there the uint8 column wraps around.
- Scripts.InsertLast: likewise, and for lists in strict order, as orderly scripts keep them (KeyboardLayout.ScriptSorted); the same order is assumed in SwapLast, RemoveLast, InsertRowLast and RemoveRowLast.
- Key layout tables, regional overlays and the value setters of KeyboardLayoutManager: finite data.
- JSON objects: only the position and the number of an LED are kept of them.
- Profiles.LoadProfileToList: for files whose offsets fit 32 bits; of a file that ends inside a record the source hands on one description more, from a buffer it could fill only in part, which the model only reports.
- KeyboardLayout.Layout.InsertRow: what is read past the end of the key list is any value, as it is in RemoveRow; that the read itself may fail is not modelled.
- Device descriptions are opaque byte strings that begin with their own length; RGBController.cpp is not part of this model.
- File names, directories and the remote profile list; the command line, settings, plugins, SPD access and the WebSocket transport.
