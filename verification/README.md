# kek in Dafny

kek emulates a PDP-11/70. This project models the parts of it where much can go wrong and
proves what they promise. Words are mathematical integers with every wrap-around written out;
C++ exceptions and early returns are outcomes; objects the program updates in place are classes
whose methods are proved against functions on values, and the theorems are about those
functions, over every input and every run.

- `Words`, `WordSets`, `Division`, `Bits`, `Psw`: machine words, sets of them, facts about
  division, bitwise operators, the status word.
- `Mmu`, `Bus`, `Hardware`, `VirtualMemory`: translation, aborts and page bits; the bus on RAM;
  virtual memory as independent arrays.
- `CpuState`, `Instructions`, `Processor`, `Arithmetic`, `Shifter`: the addressing modes and
  instructions, on values and in place.
- `Operands`, `Results`, `Numbers`, `InstructionPairs`, `BlockCopy`: what they mean, told
  without those definitions: where operands are, what becomes of them, and what instructions do
  one after the other.
- `Restart`, `Freeze`: undoing an instruction that a memory abort cut short, and how long its
  record lasts.
- `ControlFlow`, `StackIsolation`, `Entries`: calls, traps and returns as a stack discipline, and
  what they enter and save.
- `Interrupts`, `InterruptProtocol`: delivery, draining and nesting; the interleaving of device
  threads with the processor.
- `Dc11`, `SerialProtocol`: the serial receiver. `Deqna`, `TransmitList`: the Ethernet
  transmitter, and what it makes of a driver's list.
- `DiskBackend`, `Overlay`, `Crc`, `Transfer`, `Rk05`, `Rl02`, `Rp06`: disk images, their
  overlay and checksum, and the three controllers' transfer loops.
- `Text`, `Breakpoints`, `BreakpointText`, `BreakpointTrigger`, `BreakpointRoundTrip`,
  `BreakpointExact`, `BreakpointReadable`, `BreakpointNames`: breakpoint expressions, printed and
  parsed.
- `Tape`: the LDA tape writer and loader.

A memory abort is an outcome that carries the state at its detection; the trap it causes comes
after. Threads are modelled as transition systems whose steps are what a lock or an atomic
exchange makes indivisible. The hosted build is followed where the source has several.

Places where what one would expect is false of the code, each with the exact condition:

- The overlay can be told from a plain file in sectors nobody wrote that another write turned
  into a gap (`Overlay.OverlayVisibleOnlyInGaps`, an input: `Overlay.GapIsVisible`).
- A printed breakpoint is not always read back as it was. A group whose first operand is a group
  is rejected, an operand whose register has no name is dropped, and the parser builds both from
  what users may type (`BreakpointReadable.ReadBackExactly` for every breakpoint there is,
  `BreakpointExact.RoundTripExactly`; inputs: `BreakpointExact.TypedButNotReadBack`,
  `BreakpointExact.TypedButLost`).
- A tape with a load or start address of 1, or an image that reaches the I/O page, does not come
  back (`Tape.RoundTrip`, inputs: `Tape.LostTapes`).
- An RK05 read leaves its bus address twice as far as the bytes it moved (`Rk05.Rk05.ReadData`),
  and an RP06 transfer whose end wraps past 32 bits moves nothing and reports nothing
  (`Rp06.Rp06.Transfer`). An RL02 request for 32768 words moves nothing (`Rl02.RequestIs`).

`dafny verify dfyconfig.toml` checks the project.

## Model

| member | source | states |
|---|---|---|
| ProcessorStatus.DecodeEncode | cpu.cpp:268-278 | every status word the processor can hold survives being saved as a 16-bit word and loaded back: mode, previous mode, register set, priority, T and the condition codes |
| ProcessorStatus.EncodeDecode | cpu.cpp:268-278 | a loaded word is saved again without its bits 10..8, and the saved word has each field at its place |
| ProcessorStatus.LimitedLowers | cpu.cpp:268-278 | a return outside kernel mode reaches no mode more privileged than the current or the saved one, keeps register set and priority, and takes the trace bit and condition codes as saved |
| Mmu.StoreUnlocks | mmu.cpp:102-116 | a program's store to MMR0 leaves it locked exactly when it was unlocked and the store sets an error bit without enabling memory management; so any store unlocks a locked MMR0 |
| Mmu.FaultExactly | mmu.cpp:308-437 | with memory management on, told from the bits of the descriptor at mode * 16 + 8 for data + page: a translation aborts exactly when bits 2..0 forbid the access or the 64-byte block is above bits 14..8 (below them when bit 3 is set), every abort leaves MMR0 locked, and otherwise the address is (PAR + block) * 64 + the offset in the block, in 18 or 22 bits |
| Mmu.FaultRecords | mmu.cpp:339-414 | which bits an abort leaves in an unlocked MMR0: 15 and 13 of a forbidden access, 14 of a length error, the page, for a length error mode and space too, and 11..7 and 0 as before |
| Mmu.StoredBits | mmu.cpp:102-116 | every bit a program's store leaves in MMR0: never 11 or 10, no error bit together with bit 0, and of a value without bit 0 only 7..0 while an error is recorded |
| Mmu.AccessBits | mmu.h:99-103 | marking a page sets bit 7 of its descriptor, for a store bit 6 too, and no other bit |
| Mmu.TranslationStable | mmu.h:97-105 | states that agree in MMR0, MMR3 and every page but for the accessed and written bits translate every address alike |
| Mmu.SetWrittenBit | mmu.h:100-103 | setting the written bit changes neither access code, growth direction nor length |
| Hardware.MmuUnit.constructor | mmu.cpp:13-37 | a new MMU has cleared pages and registers, and its cached I/O base agrees with them |
| Hardware.MmuUnit.SetMMR0AsIs | mmu.cpp:96-100 | stores MMR0 and keeps the cached I/O base equal to what MMR0 and MMR3 determine |
| Hardware.MmuUnit.SetMMR0 | mmu.cpp:102-116 | the in-place mask-by-mask update of MMR0 equals the specified program store, nothing else changes |
| Hardware.MmuUnit.SetMMR3 | mmu.cpp:128-132 | stores MMR3 and keeps the cached I/O base in step |
| Hardware.MmuUnit.SetPageAccessed | mmu.h:99-99 | sets the accessed bit of one page and changes no other page or register |
| Hardware.MmuUnit.SetPageWrittenTo | mmu.h:100-100 | sets both bits of one page and changes no other page or register |
| Hardware.MmuUnit.TrapIfOdd | mmu.cpp:270-276 | only the page field of MMR0 changes |
| Hardware.MmuUnit.VerifyPageAccess | mmu.cpp:339-373 | refuses exactly the accesses the table refuses, and locks MMR0 with the right bits unless it was locked |
| Hardware.MmuUnit.VerifyPageLength | mmu.cpp:375-414 | refuses exactly the blocks beyond the page's length, and locks MMR0 unless it was locked |
| Hardware.MmuUnit.CalculatePhysicalAddress | mmu.cpp:416-437 | the imperative translation refines the specified one: same address or same MMR0 at the fault |
| Hardware.MmuUnit.AddToMMR1 | mmu.cpp:144-154 | pushes one entry into MMR1, or changes nothing while MMR0 is locked |
| Hardware.MmuUnit.MMRStartInstruction | mmu.cpp:529-535 | records PC and clears MMR1 unless MMR0 is locked |
| Bus.AccessKeepsTranslation | bus.cpp:573-607 | a finished read or write leaves every later translation, MMR1 and MMR2 as they were, and a read leaves RAM alone |
| Bus.AbortExactly | bus.cpp:544-607 | an aborted read or write has changed neither RAM, MMR1 nor MMR2, and a refused one leaves MMR0 locked |
| Bus.AccessMarks | bus.cpp:573-607 | a finished read marks the page it went through as accessed, a finished write as written too, and nothing else of the MMU changes |
| Bus.BoundsRecorded | bus.cpp:544-571 | which bits an unlocked MMR0 holds after an address beyond RAM |
| Bus.OddRecorded | mmu.cpp:270-276 | a word at an odd address leaves its page in MMR0 and every other bit as it was |
| Hardware.BusUnit.VerifyPointerBounds | bus.cpp:544-571 | refuses exactly the offsets beyond RAM and records the fault |
| Hardware.BusUnit.Find | bus.cpp:573-587 | the checks shared by reads and writes, in their order, end as specified: a RAM cell, the I/O page, or a recorded refusal |
| Hardware.BusUnit.Read | bus.cpp:573-607 | the in-place read refines the specified one, with its aborts and page bits |
| Hardware.BusUnit.Write | bus.cpp:851-884 | the in-place write refines the specified one, little-endian, with its aborts and page bits |
| Hardware.BusUnit.ReadUnibusByte | bus.cpp:967-974 | memory beyond RAM reads as zero |
| Hardware.BusUnit.WriteUnibusByte | bus.cpp:976-981 | stores one byte, or nothing beyond RAM |
| Hardware.BusUnit.ReadUnibusWord | bus.cpp:958-965 | a little-endian word of RAM, zero beyond it |
| Hardware.BusUnit.WriteUnibusWord | bus.cpp:886-891 | stores a little-endian word, or nothing beyond RAM |
| VirtualMemory.RefinesFlatArrays | bus.cpp:573-607 | for every page table with disjoint frames, any run of successful byte and word loads and stores returns what an independent little-endian array per mode and space would return, and leaves memory in agreement with those arrays |
| VirtualMemory.RunsExactly | bus.cpp:573-607 | a run of loads and stores succeeds exactly when, in the table it starts with, each one has a home and each word an even address; so the runs of the refinement are all those |
| VirtualMemory.HomeExactly | mmu.cpp:375-437 | a byte has a home exactly when its block is accessible by the bits of MMR3 and the descriptor and its place, frame * 64 + offset, lies in RAM below the I/O page; the home is that place |
| VirtualMemory.HomeWithoutMapping | mmu.cpp:416-437 | with memory management off an address below the I/O page and within RAM is its own home, and no other has one |
| VirtualMemory.PerformsExactly | bus.cpp:573-607 | one access succeeds exactly when it has a home and, for a word, an even address |
| VirtualMemory.HomesDistinct | mmu.cpp:416-437 | with disjoint frames, different virtual bytes live in different RAM bytes, 18-bit wrap included |
| VirtualMemory.SharedHomeAliases | bus.cpp:851-884 | without disjointness the claim fails: a byte stored through one virtual address is read through any other with the same home |
| VirtualMemory.StoreAgrees | bus.cpp:851-884 | one store of either width keeps memory in agreement with the arrays, each updated at exactly that address |
| VirtualMemory.LoadAgrees | bus.cpp:573-607 | one load of either width returns the arrays' bytes |
| VirtualMemory.Contents | memory.h:37-45 | every memory agrees with some arrays, so the refinement starts from any state |
| Restart.InstructionRestart | cpu.cpp:2725-2742 | for every instruction word and every abort point, subtracting the deltas decoded from MMR1 and setting PC to MMR2 gives exactly the register file before the instruction; status word and RAM are unchanged |
| Instructions.GamKeeps | cpu.cpp:402-473 | every addressing mode only reads memory, steps PC and changes at most one register, logging it: whatever reads and steps keep and a logged change turns into, a whole mode does |
| Restart.GamTracks | cpu.cpp:402-473 | every addressing mode, on every register, logs at most one change and can be undone wherever it is cut short |
| Restart.ExecuteRestartable | cpu.cpp:494-641 | every double-operand, MUL/DIV/ASH/ASHC/XOR or ADC/SBC instruction that aborts leaves status word and RAM as they were and its register changes undoable from MMR1 and MMR2 |
| Restart.BumpOnTrack | cpu.cpp:390-400 | one more logged register change keeps the earlier one in MMR1 and stays undoable |
| Restart.EntryDecodes | mmu.cpp:151-153 | a logged delta and register number are read back from the entry |
| Freeze.LockedStaysFrozen | mmu.cpp:529-535 | while MMR0 is locked, any run without a release - of instructions, interrupt scans, traps, calls, returns and the fetches, operands and results other instructions are made of, each finished or aborted - leaves MMR0 locked with the same error bits and MMR1 and MMR2 as the abort left them; only the page field of MMR0 may follow an odd address |
| Freeze.StepFreezes | cpu.cpp:2725-2742 | one whole instruction, finished or aborted, keeps MMR1, MMR2 and all of a locked MMR0 but its page field |
| Freeze.EventFreezes | cpu.cpp:2705-2742 | the same of every single event of a run that is no release |
| Freeze.ReleasedExactly | bus.cpp:164-191 | a locked MMR0 is unlocked by exactly a program's store to it, of a word or of either byte, and by RESET in kernel mode |
| Freeze.PollFreezes | cpu.cpp:2705-2723 | an interrupt scan with a delayed trap and a delivery keeps the record of the abort |
| Freeze.TrapFreezes | cpu.cpp:1651-1726 | entering a trap keeps the record of the abort |
| Processor.Processor.GetRegister | cpu.cpp:89-101 | the register of the current set and mode |
| Processor.Processor.SetRegister | cpu.cpp:117-130 | exactly that register changes |
| Processor.Processor.AddRegister | cpu.cpp:156-167 | adds modulo 2^16 to exactly that register and returns the sum |
| Processor.Processor.SetNzv | cpu.cpp:280-285 | sets N, Z and V and keeps C |
| Processor.Processor.GetGAM | cpu.cpp:402-473 | the imperative operand fetch refines the specified one in all eight modes, aborts included; `Operands.OperandIs` says what that one means |
| Operands.OperandIs | cpu.cpp:402-473 | for each of the eight modes on each register, from the state before it alone: when the operand can be fetched, its place, space and value, and by how much which registers move (a byte step of one only in R0..R5; indexing adds to PC as it is after the index word) |
| Operands.PutIs | cpu.cpp:475-487 | a result is found again in its register or at its address, and only its one or two bytes of RAM change |
| Operands.BanksApart | cpu.cpp:89-130 | what is assigned in one register set or to one mode's stack pointer is not seen from another |
| BlockCopy.BlockCopied | cpu.cpp:402-527 | n executions of `MOVB (Rm)+,(Rn)+` copy n consecutive bytes, through any page table and however the ranges overlap as long as no byte is overwritten before it is read; the rest of RAM stays, and both registers end after the last byte |
| BlockCopy.RangesCopyable | mmu.cpp:416-437 | with disjoint frames it is enough that the target does not begin inside the source |
| Processor.Processor.PutGAM | cpu.cpp:475-487 | the imperative result store refines the specified one |
| Processor.Processor.ExecuteMov | cpu.cpp:511-527 | MOV/MOVB refines its specification (`Results.MovIs`) |
| Processor.Processor.ExecuteCmpBit | cpu.cpp:529-552 | CMP/CMPB and BIT/BITB refine their specification (`InstructionPairs.BranchAfterCompare`, `Results.BitIs`) |
| Processor.Processor.ExecuteBicBis | cpu.cpp:554-601 | BIC/BIS refine their specification, which `Results.BicBisIs` states bit by bit |
| Processor.Processor.ExecuteSum | cpu.cpp:603-630 | ADD/SUB refine their specification (`Numbers.SumIs`) |
| Processor.Processor.ExecuteMul | cpu.cpp:707-722 | MUL refines its specification (`Numbers.MulIs`) |
| Processor.Processor.ExecuteDiv | cpu.cpp:724-765 | DIV refines its specification (`Numbers.DivIs`) |
| Processor.Processor.ExecuteAsh | cpu.cpp:767-776 | ASH, run with the bit-by-bit shifter, refines the arithmetic specification |
| Processor.Processor.ExecuteAshc | cpu.cpp:778-788 | ASHC, run with the bit-by-bit shifter, refines the arithmetic specification |
| Processor.Processor.ExecuteXor | cpu.cpp:790-800 | XOR refines its specification (`Results.XorIs`) |
| Processor.Processor.ExecuteSob | cpu.cpp:802-810 | SOB refines its specification (`Numbers.SobIs`) |
| Processor.Processor.ExecuteCarry | cpu.cpp:992-1061 | ADC(B)/SBC(B) refine their specification (`Numbers.CarryIs`) |
| Processor.Processor.ExecuteBranch | cpu.cpp:1402-1413 | a conditional branch refines its specification |
| Processor.Processor.ExecuteInstruction | cpu.cpp:494-641 | the dispatch over the modelled instructions refines its specification |
| Processor.Processor.FetchAndExecute | cpu.cpp:2725-2742 | fetch and execution refine the specified step |
| Results.StepIs | cpu.cpp:2725-2742 | a step runs the word found at PC in instruction space, with PC moved past it, MMR2 its address and MMR1 empty unless they are frozen |
| Results.MovIs | cpu.cpp:511-527 | MOV stores its source; MOVB into a register fills the high byte with the sign; N and Z are the source's at the instruction's width, V is clear, C is kept |
| Results.BitIs | cpu.cpp:543-552 | BIT stores nothing and sets the condition codes by the bits both operands have |
| Results.BicBisIs | cpu.cpp:554-601 | every bit of what BIC stores is the destination's and not the source's, of BIS either one's; on a register the whole word takes part also in the byte forms; N and Z are the result's at the instruction's width, V is clear, C is kept |
| Results.XorIs | cpu.cpp:790-800 | every bit of what XOR stores is set in one of its operands only |
| Results.XorTwice | cpu.cpp:790-800 | XOR twice restores a register other than its own, or the word such a register points to |
| Bits.OperatorBits | cpu.cpp:546-591 | and, or, exclusive or and complement of words, bit for bit |
| Numbers.SumIs | cpu.cpp:603-641 | ADD and SUB store the sum or difference modulo 2^16; C is the unsigned carry or borrow, V that the signed number does not fit, N and Z are the result's |
| Numbers.BranchAfterSum | cpu.cpp:1350-1413 | each of the 15 branches after an ADD or SUB, in any addressing modes, moves PC by twice its signed offset exactly when the exact signed number, the carry or the stored word is as its name says |
| Numbers.CarryIs | cpu.cpp:992-1061 | ADC(B) and SBC(B) add or take away the carry in their width with exact condition codes; a byte in a register leaves the high byte alone |
| Numbers.MulIs | cpu.cpp:707-722 | MUL leaves the signed product in an even register pair, its low word in an odd register, C set when it needs more than 16 bits, and no other register changed |
| Numbers.DivIs | cpu.cpp:724-765 | DIV leaves the truncated quotient and the remainder, or every register as it was when the divisor is zero or the quotient does not fit |
| Numbers.AshIs | cpu.cpp:767-776 | ASH multiplies or divides by the power of two its six-bit signed operand says, with V for a number that does not fit and C the last bit moved out |
| Numbers.AshcIs | cpu.cpp:778-788 | ASHC does so with the 32-bit number of a register pair |
| Numbers.SobIs | cpu.cpp:802-810 | SOB counts its register down and goes back by twice its offset unless it reached zero |
| Numbers.SobCounts | cpu.cpp:802-810 | a loop closed by SOB goes back in every round but the last, whose number the register said at the start, 65536 for zero |
| Processor.Processor.Push | cpu.cpp:1454-1480 | push refines its specification, with the yellow zone's delayed trap |
| Processor.Processor.Pop | cpu.cpp:1482-1490 | pop refines its specification |
| Processor.Processor.JumpToSubroutine | cpu.cpp:1598-1607 | JSR refines its specification, after its destination is known |
| Processor.Processor.ReturnFromSubroutine | cpu.cpp:1611-1627 | RTS refines its specification |
| Processor.Processor.ReturnFromInterrupt | cpu.cpp:1531-1534 | RTI refines its specification, with the restricted status word outside kernel mode |
| Processor.Processor.EnterTrap | cpu.cpp:1651-1726 | trap entry refines its specification when nothing in it traps again; `Entries.TrapIs` says where it enters and what it saves |
| Processor.Processor.QueueInterrupt | cpu.cpp:350-373 | one vector joins its level's set and the flag is raised |
| Processor.Processor.UnqueueInterrupt | cpu.cpp:375-388 | one vector leaves its level's set, the flag is untouched |
| Processor.Processor.CheckPendingInterrupts | cpu.cpp:287-297 | the loop answers whether some level above the priority has a vector |
| Processor.Processor.ExecuteAnyPendingInterrupt | cpu.cpp:299-348 | the scan loop delivers exactly the specified vector, or none |
| Processor.Processor.PollInterrupts | cpu.cpp:2705-2723 | flag, delayed trap and scan refine their specification |
| ControlFlow.BalancedFlow | cpu.cpp:1585-1627 | any balanced, arbitrarily deep nesting of JSR/RTS and trap/RTI with work in between keeps every stack pointer, the mode, the register set and all pinned slots |
| ControlFlow.CallReturns | cpu.cpp:1585-1627 | a whole call, whatever balanced flow its body is, ends with PC, link register, mode and every stack pointer restored |
| ControlFlow.InterruptReturns | cpu.cpp:1651-1726 | a whole trap or interrupt with its handler ends with PC, the full status word and every mode's stack pointer restored |
| ControlFlow.RtsUndoesJsr | cpu.cpp:1611-1627 | RTS at the matching stack pointer takes back what JSR did |
| ControlFlow.RtiUndoesTrap | cpu.cpp:1531-1534 | RTI in kernel mode takes back PC and the status word that the trap saved |
| Entries.CallIs | cpu.cpp:1585-1609 | JSR goes to its target, leaves the return address in the link register, whichever that is, and saves the link register's old value below the stack pointer |
| Entries.TrapIs | cpu.cpp:1651-1726 | a trap enters at the word its vector holds in kernel mode, with the next word as status word but for the previous mode and an interrupt's priority, and stores the old status word and PC below the new mode's stack pointer, whatever the page table |
| Entries.ReturnIs | cpu.cpp:1531-1534 | RTI takes PC and the status word from the stack of the mode it runs in, the latter restricted outside kernel mode |
| Entries.PushIs | cpu.cpp:1454-1480 | a push stores one word below the stack pointer, and in kernel mode below the limit asks for a trap through 4 |
| Entries.PushStops | cpu.cpp:1460-1473 | the red zone begins more than 32 bytes below the limit, in kernel mode only |
| StackIsolation.PushSparesSlots | cpu.cpp:1454-1480 | with disjoint frames a push fills its own slot and leaves every other stack slot of every mode as it is |
| StackIsolation.StoreSparesSlot | bus.cpp:851-884 | a word store spares every data word at another address |
| StackIsolation.CallEntersIntact | cpu.cpp:1598-1607 | with disjoint frames a JSR that pushes onto no pinned slot enters with every pin of its caller and its own saved words in place |
| StackIsolation.TrapEntersIntact | cpu.cpp:1651-1726 | with disjoint frames a trap that pushes onto no pinned slot enters with every pin and both saved words in place |
| StackIsolation.EntriesKeepPins | cpu.cpp:1598-1726 | with disjoint frames, pinned slots at or above the stack pointers and room below them, every call and trap of a balanced run enters with all it is asked to keep in place: only the ordinary work in between can break the nesting |
| StackIsolation.LimitGivesRoom | cpu.cpp:1454-1480 | in kernel mode the stack limit keeps the stack pointer from wrapping |
| Interrupts.PollDelivers | cpu.cpp:2705-2723 | with the flag up and no delayed trap, a step delivers the first vector of the lowest level above the priority, consumes that vector alone, raises the priority to its level and keeps the flag up while anything is queued |
| Entries.DeliveryStartsHandler | cpu.cpp:299-348 | delivering starts the handler in the vector delivered, at its level, with the interrupted status word and PC saved |
| Entries.DelayedTrapFirst | cpu.cpp:2714-2723 | a delayed trap is entered first, at level 7, and nothing from the queue with it; the queue is untouched and the flag up for it |
| Interrupts.PendingIsPickable | cpu.cpp:287-297 | WAIT's test holds exactly when a scan would deliver |
| Interrupts.DrainsInOrder | cpu.cpp:299-348 | with k levels pending above the priority and nothing arriving, k consecutive steps enter all of them in increasing order |
| Interrupts.PollEntersAbove | cpu.cpp:299-348 | what the scan does to the processor is a trap entry with the level of the vector, and that level is above the interrupted priority |
| Interrupts.NestingIsBounded | cpu.cpp:1694-1698 | in every balanced run of the processor in which only returns lower the priority, the levels of interrupts nested inside each other, through subroutines and other traps, strictly increase; from priority p at most 7 - p are unreturned at once |
| Interrupts.PriorityKept | cpu.cpp:1531-1534 | such a run ends with a priority no lower than it began with, however many handlers raised it meanwhile |
| Interrupts.ClimbingIsShort | cpu.cpp:308-317 | strictly increasing levels above a priority p number at most 7 - p |
| InterruptProtocol.NoLostInterrupt | cpu.cpp:350-388 | in every interleaving of queueing, unqueueing, RESET and the processor's exchange-then-scan: with the lock free and the processor not between exchange and scan, a queued vector has the flag up; and every accepted vector is queued, delivered once, or withdrawn once |
| InterruptProtocol.StartsGood | cpu.cpp:36-41 | the invariant holds of the empty queue with any number of threads |
| InterruptProtocol.ScanDelivers | cpu.cpp:299-348 | whatever other threads want meanwhile, a scan delivers exactly the first vector of the lowest level above the priority, or nothing when there is none |
| InterruptProtocol.StepDelivers | cpu.cpp:2705-2723 | from every reachable state with the lock free and a level above the priority queued, exchange and scan deliver it |
| InterruptProtocol.ScanExcludes | cpu.cpp:299-308 | while the processor scans it holds the lock, so no step of another thread is possible |
| Shifter.Shift | cpu.cpp:643-694 | for every 16- or 32-bit value and every 6-bit count the shifter returns v*2^s modulo 2^n or floor(v/2^k), V exactly when the shifted number does not fit, C the last bit out, N and Z of the result |
| Shifter.ShiftLeft | cpu.cpp:656-664 | the bit-by-bit loop finds V exactly when v*2^s does not fit n signed bits |
| Shifter.ShiftRight | cpu.cpp:670-687 | sign extension to 64 bits and two logical shifts give the floor quotient and the last bit out |
| Shifter.LoopRound | cpu.cpp:659-663 | one doubling keeps the value modulo 2^n, and overflow is sticky |
| Shifter.WholeRight | cpu.cpp:665-669 | a count of 32 leaves copies of the sign |
| Shifter.CarryLeft | cpu.cpp:657-657 | the bit taken before the loop is the last one shifted out |
| Arithmetic.DivideExact | cpu.cpp:724-765 | DIV yields the one quotient and remainder with dividend = q*d + r, the remainder below the divisor in absolute value, r zero or signed like the dividend, and leaves the registers alone exactly when d is 0 or q does not fit 16 signed bits |
| Arithmetic.TruncatingDivision | cpu.cpp:746-747 | truncating division has those properties for every dividend and divisor |
| Arithmetic.DivisionUnique | cpu.cpp:746-747 | no other quotient and remainder have them |
| Arithmetic.DivideUndoesMultiply | cpu.cpp:707-765 | MUL yields the whole product with exact condition codes, and DIV by the same non-zero operand gives back the multiplicand with remainder 0 |
| InstructionPairs.DivUndoesMul | cpu.cpp:707-765 | MUL on an even register and then DIV of the same pair, in any addressing modes: if both fetch the same non-zero operand and the second fetch leaves the pair alone, the multiplicand is back, the remainder is 0 and V is clear |
| InstructionPairs.DivUndoesMulOfRegister | cpu.cpp:707-765 | in particular with the operand in any register outside the pair |
| InstructionPairs.ChainRuns | cpu.cpp:603-630 | executed instruction by instruction in whatever addressing modes, ADD and n-1 ADCs (SUB and SBCs) replace the n words they find by those of the whole sum (difference) and leave its carry (borrow) in the status word |
| InstructionPairs.CarryStep | cpu.cpp:992-1061 | one executed ADC or SBC replaces the word it finds, changes nothing else but condition codes, and takes the carry in from and puts it out to the status word |
| InstructionPairs.OperandKeepsPsw | cpu.cpp:402-473 | no addressing mode touches the status word |
| Arithmetic.ChainExact | cpu.cpp:603-630 | ADD (SUB) to the lowest word and ADC (SBC) on the other n-1 adds to (subtracts from) the n-word number exactly, with C the true carry (borrow) out, for every n |
| Arithmetic.ChainsUndo | cpu.cpp:992-1061 | a subtracting chain undoes an adding chain and the other way round, with equal carry and borrow |
| Arithmetic.AddExact | cpu.cpp:603-630 | C and V of ADD say exactly how the wrapped sum misses the unsigned and the signed sum, N and Z are its own |
| Arithmetic.SubExact | cpu.cpp:603-630 | C and V of SUB say exactly how the wrapped difference misses the true one, N and Z are its own |
| Arithmetic.AddCarryExact | cpu.cpp:992-1026 | C and V of ADC/ADCB are the unsigned and signed overflow of adding the carry, N and Z are the result's |
| Arithmetic.SubCarryExact | cpu.cpp:1028-1061 | C and V of SBC/SBCB are the unsigned and signed underflow of subtracting the carry, N and Z are the result's |
| Arithmetic.BranchesDecideOrder | cpu.cpp:1350-1400 | after CMP or CMPB of any operands, BEQ/BNE/BGE/BLT/BGT/BLE decide the signed order and BHI/BLOS/BCC/BCS the unsigned order of source with destination |
| Arithmetic.SignsDecide | cpu.cpp:529-541 | N differs from V exactly when the source is the smaller signed number, and V is set exactly when the signed difference does not fit the width |
| InstructionPairs.BranchAfterCompare | cpu.cpp:1402-1413 | CMP(B) in any addressing modes and then a conditional branch: PC moves exactly when the operands fetched are in the order the branch names, and nothing else changes |
| InstructionPairs.OperandInRange | cpu.cpp:402-473 | a fetched operand fits the width of its instruction, in every addressing mode |
| SerialProtocol.NoStrandedByte | dc11.cpp:94-147 | in every interleaving of the polling thread, register reads and writes, deliveries and other devices, with the line's receive interrupt kept on and no RESET: bytes received are the bytes read (low byte) followed by the bytes buffered; and with the line's lock free, a waiting byte has its vector queued or delivered with RBUF not read since |
| SerialProtocol.StartsGood | dc11.cpp:34-39 | the invariant holds of lines just switched on, with empty buffers |
| SerialProtocol.OneInterruptPerByte | dc11.cpp:201-222 | a handler that reads RBUF once per interrupt empties the buffer in as many interrupts as there are bytes, and has then read everything received, in order |
| SerialProtocol.VisitIsPoll | dc11.cpp:110-146 | the single steps of an undisturbed visit of the polling thread add up to what the polling method does |
| SerialProtocol.AnnouncedKept | dc11.cpp:94-147 | no single step strands a byte, although the queue is a set that merges repeated requests |
| SerialProtocol.OrderKept | dc11.cpp:201-222 | no single step loses, repeats or reorders a byte |
| Dc11.Dc11.Poll | dc11.cpp:110-146 | the polling loop appends exactly the input, sets the status bits and asks for the receive interrupt when it should; other lines are untouched |
| Dc11.Dc11.ReadData | dc11.cpp:201-222 | RBUF gives the oldest byte and asks again while bytes are left; other lines are untouched |
| Dc11.Dc11.ReadStatus | dc11.cpp:186-200 | RCSR shows the carrier bits, the error bits are seen once, the enable bit is kept |
| Dc11.Dc11.WriteWord | dc11.cpp:257-282 | stores one register, sends the low seven bits of TBUF and asks for the transmit interrupt when enabled |
| Dc11.Dc11.TriggerInterrupt | dc11.cpp:94-99 | the line's vector joins the set |
| Dc11.PoppedKeeps | dc11.cpp:205-220 | taking a byte drops exactly the oldest one and keeps the enable bit |
| Dc11.LowIsTheByte | dc11.cpp:206-206 | sign extension does not touch the low byte |
| Dc11.RxVectorsDiffer | dc11.cpp:98-98 | no two lines, and no receiver and transmitter, share a vector |
| Dc11.StatusBits | dc11.cpp:120-216 | which bits of the status register a carrier change, input, parity and a program's look set, and that no other bit changes |
| Deqna.DeqnaUnit.Transmitter | deqna.cpp:247-358 | for every list whose walk repeats no descriptor, with descriptors and buffers outside the descriptors passed before them: the transmitter terminates, hands on exactly the non-empty groups between END marks cut at 1514 bytes, up to the first invalid or oversized descriptor, and leaves memory, CSR and interrupts as specified; what this makes of a driver's list is `TransmitList.ListIsSent` |
| TransmitList.ListIsSent | deqna.cpp:259-348 | for any list a driver writes (buffers of n words as 65536 - n, 22-bit addresses, END marks, jumps): the walk goes through exactly its descriptors, the transmitter may run on it, and the frames are the bytes of its buffers joined up to each END mark, non-empty and cut at 1514 |
| TransmitList.ListReturned | deqna.cpp:280-331 | after that walk each descriptor has flag bit 14 clear, address and size as they were, and at an END mark the status words 0x2000 and 0 |
| TransmitList.StartIs | deqna.cpp:257-257 | the list begins at the 22-bit address in registers 4 and 5 |
| TransmitList.FramesGo | deqna.cpp:312-339 | frames go to the wire or, with bit 8 of CSR clear, to the one-packet receive queue; with bit 6 set an END mark asks for the vector in bits 9..2 of register 6 |
| Deqna.CsrBits | deqna.cpp:333-350 | an END mark sets bit 7 of CSR, the end of the list bit 4, and neither any other |
| Deqna.DeqnaUnit.PassDescriptor | deqna.cpp:266-348 | one descriptor: busy mark, checks, copying, END handling and the step to the next, or the reason to stop |
| Deqna.DeqnaUnit.CopyBuffer | deqna.cpp:296-297 | copies as much as the 1514-byte frame has room for, from the front |
| Deqna.DeqnaUnit.HandOn | deqna.cpp:304-339 | an END mark hands a non-empty frame to loopback or the wire, marks the descriptor done and asks for the interrupt |
| Deqna.DeqnaUnit.QueueRxPacket | deqna.cpp:80-91 | the packet is queued when the queue is empty and dropped otherwise |
| Deqna.Conservation | deqna.cpp:262-348 | the groups between END marks, with what follows the last mark, are the bytes of all buffers in order: none lost, repeated or moved |
| Deqna.FramesAreGroups | deqna.cpp:296-297 | every frame is the non-empty front of its group, the whole group when it has at most 1514 bytes |
| Deqna.EndsExactlyWithoutRepeat | deqna.cpp:266-348 | the walk along the descriptors ends exactly when it meets none twice |
| Deqna.ClearSurvives | deqna.cpp:280-330 | memory outside the descriptors passed is untouched |
| DiskBackend.DiskBackendFile.StoreMemRangeInOverlay | disk_backend.cpp:50-63 | the store loop puts every sector under its number, or does nothing without the overlay |
| DiskBackend.DiskBackendFile.Write | disk_backend_file.cpp:119-142 | a write goes to the overlay or to the file, and only there |
| DiskBackend.DiskBackendFile.Read | disk_backend_file.cpp:84-117 | a one-sector read gives the overlay's sector or else the file's, and fails exactly when there is neither |
| Overlay.OverlayTransparent | disk_backend_file.cpp:84-142 | after any whole-sector writes the base image is untouched with the overlay on, and every sector written or inside the base reads as without the overlay |
| Overlay.OverlayVisibleOnlyInGaps | disk_backend_file.cpp:84-142 | on and off differ at a sector exactly when nobody wrote it, it is not wholly inside the base, and some write ends at its end or later |
| Overlay.PlainLength | disk_backend_file.cpp:119-142 | the file without the overlay is at least n long exactly when the base is or some non-empty write ends at n or later |
| Overlay.GapIsVisible | disk_backend_file.cpp:84-142 | on an empty disk with one sector written behind the first, reading the first fails with the overlay and gives zeros without |
| Overlay.OffIsPlain | disk_backend_file.cpp:119-142 | without the overlay the file is the base with the writes applied in order |
| Crc.BurstDetected | disk_backend.cpp:126-150 | two streams of equal length that differ, but only within four consecutive bytes, never have the same CRC |
| Crc.CheckValue | disk_backend.cpp:126-150 | the CRC of the digits 1 to 9 is the customary check value of CRC-32, before its final complement |
| Crc.FoldIsBits | disk_backend.cpp:127-137 | folding at most four bytes is one linear map of the state xor the packed bytes |
| Crc.FoldInjective | disk_backend.cpp:147-148 | for fixed data the fold loses nothing of the state |
| Crc.BitsLinear | disk_backend.cpp:130-135 | the bit steps are linear over xor |
| Crc.BitsInjective | disk_backend.cpp:130-135 | the bit steps are a bijection on the 32-bit state |
| Crc.Crc32 | disk_backend.cpp:127-137 | the eight-round loop computes the specified byte step |
| Crc.CrcOver | disk_backend.cpp:147-148 | the buffer loop computes the fold |
| Transfer.TransferRoundTrip | rk05.cpp:155-251 | writing memory to a disk and reading it back to the same place restores memory exactly, whatever happened to that memory meanwhile |
| Transfer.ReadBack | disk_backend_file.cpp:84-142 | every sector of a write reads back as written |
| Transfer.WriteTouchesNothingElse | disk_backend_file.cpp:119-142 | a readable sector outside a write keeps its contents |
| Transfer.WriteSplits | rk05.cpp:171-199 | a write sector by sector is the write of the whole |
| Transfer.FillBuffer | rk05.cpp:175-176 | the copying loop fills the buffer with consecutive memory bytes |
| Transfer.DrainBuffer | rk05.cpp:230-235 | the copying loop stores the buffer at consecutive addresses and nowhere else |
| Transfer.ReadSector | rl02.cpp:339-354 | one round of a read loop: memory gets the sector, or the read fails and memory is untouched |
| Transfer.WriteSector | rl02.cpp:279-293 | one round of a write loop: the disk gets the memory bytes |
| Rk05.Rk05.WriteData | rk05.cpp:155-203 | function 1, from any start sector, moves byte i of memory to byte i of the disk range and touches nothing else, and leaves the end of the odometer in the disk address register; a missing drive sets the error bits |
| Rk05.Rk05.WriteSectors | rk05.cpp:165-199 | at every round the sector, surface and cylinder digits are those of the odometer |
| Rk05.Rk05.ReadData | rk05.cpp:204-251 | function 2 moves the sectors up to the first unreadable one to memory and nothing else, with the odometer, the error bits, and a bus address that advances by two for every byte moved, twice as far as the bytes reach |
| Rk05.Rk05.ReadSectors | rk05.cpp:214-247 | the read loop keeps odometer and offset in step |
| Rk05.Rk05.UpdateBusAddress | rk05.cpp:104-114 | the 18-bit bus address advances modulo 2^18 and no other register bit changes |
| Rk05.AddressRoundTrip | rk05.cpp:137-144 | every sector number of the 256 cylinders has a register value that means it |
| Rk05.AddressOfLinear | rk05.cpp:201-201 | every legal register value is the one for its sector number |
| Rk05.LegalStart | rk05.cpp:187-201 | from a sector number of the track the register ends on the sector after the last one moved |
| Rk05.OdometerEnds | rk05.cpp:187-201 | the digits at the end of a transfer are the register value stated for it, also from a sector number past the end of its track |
| Rk05.RequestIs | rk05.cpp:99-135 | a driver's request, n words as -n (or as n) at an 18-bit address, is taken as 2n bytes at that address |
| Rk05.FailureShown | rk05.cpp:161-162 | a failure sets its bit of ERROR and the top two bits of CS, and nothing else |
| Rl02.Rl02.WriteData | rl02.cpp:258-315 | command 5, from any start position, moves byte i of memory to byte i of the disk range and nothing else, and the odometer counts on from there |
| Rl02.Rl02.ReadData | rl02.cpp:316-376 | commands 6 and 7 move the sectors up to the first unreadable one, from any start position, and the odometer stops after the last one moved |
| Rl02.Rl02.NextSector | rl02.cpp:301-311 | one round of the odometer advances the computed offset by one sector |
| Rl02.OffsetInjective | rl02.cpp:190-193 | different positions are different sectors |
| Rl02.OffsetOnto | rl02.cpp:190-193 | every sector of 512 tracks, 2 heads and 40 sectors has a position on the disk |
| Rl02.OffsetInRange | rl02.cpp:190-193 | every position on the disk is a whole sector of the image |
| Rl02.HeaderRoundTrip | rl02.cpp:249-250 | the header word of a position, sector + 64 * head + 128 * track, means that position |
| Rl02.RequestIs | rl02.cpp:258-266 | a driver's request, n words as -n at an even 18-bit address, is taken as 2n bytes at that address, except that 32768 words move nothing |
| Rp06.Rp06.Transfer | rp06.cpp:195-243 | functions 060 and 070 move byte i between memory and disk and touch nothing else, or silently move nothing at all when the end wraps past 32 bits; a read stops at the first unreadable sector |
| Rp06.OffsetInjective | rp06.cpp:126-141 | different legal addresses are different sectors, on both drives |
| Rp06.OffsetOnto | rp06.cpp:126-141 | every sector below the 32-bit limit has a legal address that fits the registers |
| Rp06.PhysicalAddress | rp06.cpp:143-161 | 18 bits of address from CS1, or 22 bits from the extension register when that is not zero |
| Rp06.RequestIs | rp06.cpp:126-200 | a driver's request, n words as -n from cylinder, track and sector, is taken as 2n bytes from that address, 65536 words for a count of zero |
| Rp06.FinishShown | rp06.cpp:236-243 | the end of a transfer sets bit 7 of CS1 and clears the word count, and nothing else |
| Text.SplitJoin | utils.cpp:143-169 | splitting undoes joining, for all lists of non-empty pieces without the separator |
| Text.SplitText | utils.cpp:143-169 | the consuming loop computes the non-empty pieces |
| Text.StoiOctal | breakpoint_register.cpp:85-86 | an octal number of any width up to the `int` limit is read back, whatever non-octal text follows |
| BreakpointRoundTrip.RoundTrip | breakpoint_parser.cpp:20-128 | printing and parsing a leaf-first and/or tree gives the tree without the operands whose register has no name, and an error when nothing is left; so the same tree when every register has one |
| BreakpointReadable.ReadBackExactly | breakpoint_parser.cpp:20-128 | of all breakpoints there are, exactly those are read back as they were printed whose value sets are not empty, whose addresses fit an `int`, whose registers have names, whose groups have two or more operands, and whose groups begin with a leaf |
| BreakpointReadable.OnlyPrintableComesBack | breakpoint_parser.cpp:20-128 | whatever comes back as it was printed has proper leaves and groups of two or more operands |
| BreakpointReadable.ParsedIsPaid | breakpoint_parser.cpp:20-128 | at every depth of the parse of a printed text: what is built has proper leaves only, and the text had a joiner for every operand but one of each group built, and at least one |
| BreakpointReadable.PrintedTokens | breakpoint_and.cpp:32-48 | the pieces of every printed text are joiners and well-formed words with a joiner between any two words, and there are as many joiners as the tree has operands to join |
| BreakpointReadable.LeafIsGood | breakpoint_parser.cpp:86-111 | a word of a printed text, or what parentheses leave of it, gives at most one leaf, and a proper one |
| BreakpointReadable.CostWide | breakpoint_and.cpp:32-48 | only trees whose groups all have two operands or more print as many joiners as building them takes |
| BreakpointExact.RoundTripExactly | breakpoint_parser.cpp:20-128 | what a printed tree is read back as: without its unknown registers when every group begins with a leaf, and an error otherwise |
| BreakpointExact.TypedButLost | breakpoint_register.cpp:105-109 | from `R0=.. and MMR5=..`, with any values, the parser builds a tree that is read back without its second operand |
| BreakpointExact.TypedButNotReadBack | breakpoint_parser.cpp:20-128 | every text that joins a printed group with further printed operands is parsed, into a tree whose own printed form the parser then rejects |
| BreakpointRoundTrip.TypedOperands | breakpoint_parser.cpp:20-128 | leaf-first operands joined by `and` or `or` without parentheses around them are parsed into that group, without unknown registers |
| BreakpointNames.TypedRegister | breakpoint_register.cpp:89-109 | R0..R7, SP, PC, MMR0..3 and PSW, in either case, are understood as the register they name, and printed back under one name |
| BreakpointExact.ParseFails | breakpoint_parser.cpp:31-68 | reaching a token with two leading parentheses at any depth makes the parse fail |
| BreakpointRoundTrip.ScanFinds | breakpoint_parser.cpp:31-53 | the depth-counting scan finds the matching parenthesis of a balanced range |
| BreakpointRoundTrip.TokensAreLevel | breakpoint_and.cpp:32-48 | the printed groups of a leaf-first tree balance, and close only at their last token |
| BreakpointRoundTrip.EmitIsTokens | breakpoint_or.cpp:28-44 | printed text is its tokens with single spaces |
| BreakpointRoundTrip.RegisterBack | breakpoint_register.cpp:76-131 | a register breakpoint is read back by exactly one of the three leaf parsers, or passed over by all three when the register has no name |
| BreakpointRoundTrip.MemoryBack | breakpoint_memory.cpp:43-82 | a memory breakpoint is read back by exactly one of the three leaf parsers |
| BreakpointRoundTrip.InstructionBack | breakpoint_instruction.cpp:32-56 | an instruction breakpoint is read back by exactly one of the three leaf parsers |
| BreakpointText.ParseBreakpoint | breakpoint_parser.cpp:20-128 | the parser's loops and its recursion on substrings compute the specified outcome for every text |
| BreakpointText.FindEnd | breakpoint_parser.cpp:31-53 | the depth loop computes the specified scan |
| BreakpointText.Rejoin | breakpoint_parser.cpp:55-57 | the tokens of a range are joined by single spaces |
| BreakpointText.ParseValueList | breakpoint_register.cpp:82-86 | the value loop collects every value or stops at the first that is no number |
| BreakpointText.EmitKeyed | breakpoint_register.cpp:117-131 | the printing loop writes the key once and the values in order |
| BreakpointText.EmitGroup | breakpoint_and.cpp:32-48 | the printing loop writes the operands in order between parentheses |
| BreakpointText.EmitBreakpoint | breakpoint_memory.cpp:68-82 | printing all kinds of breakpoints |
| BreakpointTrigger.TriggersExactly | breakpoint_and.cpp:17-30 | a tree triggers exactly when it holds as a formula: all operands of an `and`, some operand of an `or` |
| BreakpointTrigger.AndIsTriggered | breakpoint_and.cpp:17-30 | the loop with early return collects the operands' texts |
| BreakpointTrigger.OrIsTriggered | breakpoint_or.cpp:17-26 | the loop returns the first operand's text that triggers |
| Tape.LoadWritten | loaders.cpp:134-203 | loading a written tape leaves the image at its address and nowhere else, the start address, and a data checksum of 255; with the exact outcome when an address is 1 or the image does not fit into RAM below the I/O page |
| Tape.RoundTrip | raw_to_simh_bin.cpp:15-73 | the round trip holds exactly when neither the load nor the start address is 1 and a non-empty image ends within RAM and below the I/O page |
| Tape.LostTapes | loaders.cpp:155-191 | two tapes that do not come back: one with start address 1, one with a byte for address 0160000 |
| Tape.Format | raw_to_simh_bin.cpp:36-66 | the tape byte for byte: 1, 0, the count with the header, the address, the image, a byte that makes the block sum to zero, and a block of six with the start address |
| Tape.LoadData | loaders.cpp:172-191 | the byte loop stores and sums the data of one block, up to the first byte that does not reach RAM |
| Tape.LoadTape | loaders.cpp:134-203 | the block and byte loops compute the specified load of any file, truncated ones included |
| Tape.Writer.WriteImage | raw_to_simh_bin.cpp:36-66 | the writer's calls produce the specified tape |
| Tape.Writer.PutByte | raw_to_simh_bin.cpp:8-13 | one byte is appended and subtracted from the running checksum |

## Left out

- Device registers, interrupts and commands around a disk transfer: the completion interrupt, controller reset, seek and status commands of RK05, RL02 and RP06 would add only easy members.
- Hardware.MmuUnit.constructor: CPUERR, PIR and CSR, which the MMU object also keeps, are not modelled.
- Hardware.MmuUnit.TrapIfOdd: the CPUERR bit and the trap it raises are not modelled; the trap follows as its own event.
- Hardware.MmuUnit.VerifyPageAccess: the trap through 0250 and the CPUERR bit are not modelled, only MMR0 and the refusal; the trap follows as its own event.
- Hardware.MmuUnit.VerifyPageLength: as for the page access.
- Hardware.BusUnit.VerifyPointerBounds: the trap through 0250 is not modelled, only MMR0 and the refusal.
- Hardware.BusUnit.Find: an address in the I/O page ends the model.
- Hardware.BusUnit.Read: an access to the I/O page ends the model, so device and processor registers in it are left out.
- Hardware.BusUnit.Write: as for reading.
- Hardware.BusUnit.ReadUnibusWord: an odd address at the last byte of RAM is required not to occur; the source would read one byte past its array.
- Hardware.BusUnit.WriteUnibusWord: as for reading, one byte would be stored past the array.
- VirtualMemory.RefinesFlatArrays: accesses to the I/O page are left out; writes follow the source in asking for a read translation, so nothing is claimed about write protection.
- Restart.InstructionRestart: single-operand instructions other than ADC and SBC, MFPI and MTPI are outside the modelled set; JSR too, which lowers the stack pointer before it logs that, so that an abort of its push is not undone by MMR1.
- Processor.Processor.ExecuteInstruction: instructions outside the modelled set end the model.
- Processor.Processor.FetchAndExecute: as for the dispatch.
- Processor.Processor.Push: the red zone of the kernel stack ends the model, and CPUERR is left out.
- Processor.Processor.EnterTrap: a trap whose vector fetch or push traps again, or that finds an odd address, ends the model as an abort where the source counts its depth and starts over or stops.
- Processor.Processor.PollInterrupts: as for the trap entry.
- Processor.Processor.JumpToSubroutine: the destination's address is an argument; its addressing mode is not run.
- Freeze.LockedStaysFrozen: RESET and a program's store to MMR0, which end the lock, are events of their own (`Freeze.ReleasedExactly`); a trap that traps again is outside the run.
- Freeze.StepFreezes: whole instructions of the modelled set only; the others are runs of their parts.
- Freeze.TrapFreezes: a trap whose vector fetch or push traps again ends as an abort, where the source starts over.
- Freeze.PollFreezes: as for the trap entry.
- Interrupts.NestingIsBounded: a handler that lowers its priority itself is outside the claim; a delayed trap, which enters at level 7 from any priority, does not count as one of the nested interrupts.
- InterruptProtocol.NoLostInterrupt: RESET clears the queue without taking the lock (cpu.cpp:36-40, called from cpu.cpp:1554-1558) and is modelled as one atomic step all the same; so is each lock-protected step, and the flag is sequentially consistent; the FREERTOS queue and the condition variable of WAIT are not modelled.
- Arithmetic.ChainExact: about values; `InstructionPairs.ChainRuns` says the same of executed instructions.
- Arithmetic.ChainsUndo: about values, as above.
- SerialProtocol.NoStrandedByte: the transmitter's output, the DZ11 (which shares two vectors) and ESP32 code are not modelled.
- Deqna.DeqnaUnit.Transmitter: the receiver threads, which may empty the loopback queue at the same time, host transmit failures and the statistics counters are not modelled.
- Deqna.DeqnaUnit.HandOn: a host transmit failure is not modelled.
- DiskBackend.DiskBackendFile.Read: says nothing of reads of several sectors at once, in which the file is read with the full length into the front of the buffer at every round; the controllers ask for one sector at a time.
- DiskBackend.DiskBackendFile.Write: host write errors are not modelled; a write to the file always succeeds and grows it when needed.
- Crc.CrcOver: covers the fold over one buffer; `crc_over_data` asks the file backend for one byte with a sector size of 4096, which that backend's own assertion refuses, so its outer loop is not modelled.
- Rk05.Rk05.WriteData: whole sectors are required, as the file backend's own assertions require them of its callers.
- Rk05.Rk05.WriteSectors: whole sectors, as above.
- Rk05.Rk05.ReadData: whole sectors, as above.
- Rk05.Rk05.ReadSectors: whole sectors, as above.
- Rl02.Rl02.WriteData: whole sectors, as above; the multipurpose register's word counters and the control register's completion are not modelled.
- Rl02.Rl02.ReadData: as for writing.
- Rp06.Rp06.Transfer: whole sectors, as above, unless the end wraps and nothing is moved; the completion interrupt is left out, and the geometry belongs to one controller, where the source shares it between all of them.
- BreakpointRoundTrip.RoundTrip: for trees with an empty value set, a group of fewer than two operands or a memory address of 2^31 or more it does not say what comes back; `BreakpointReadable.ReadBackExactly` says that it is never the same tree. The action of a breakpoint is not part of its text; text is ASCII.
- BreakpointTrigger.TriggersExactly: what the machine says of a single register, memory or instruction breakpoint is a parameter.
- Tape.LoadTape: memory is the RAM a store reaches with memory management off; a byte for the I/O page or beyond RAM ends the model of the load, where the source hands it to a device register or traps; console messages are left out.
- Tape.LoadData: ends at the first byte that does not reach RAM, as the loader.
- Tape.LoadWritten: as for the loader, nothing is said of the load after a byte that does not reach RAM.
- Consoles, terminals, networking transports, the NBD client, JSON state files, the debugger's commands, the disassembler and the timing estimates: input, output and plumbing.
- The display translator and `peek_word`: for display only, with its own page indexing.
- The TM-11, KW11-L, TTY and DZ11 devices.
