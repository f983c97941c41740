# A verified model of the XEMU RISC-V emulator

XEMU is an RV64 system emulator. This project models its hard core in Dafny and
proves what that core promises:

* **Module loading** (`lists.dfy`, `dependency_order.dfy`, `module_loader.dfy`).
  The circular doubly linked lists on the heap; symbol matching, dependency
  building and the destructive depth-first sort as a class whose methods refine a
  specification; and the end-to-end results: every symbol of an emitted module is
  exported by something emitted earlier, the emitted set is exactly what is
  required, and each panic happens exactly when it should.
* **Virtio** (`virtio_ring.dfy`, `virtio_layout.dfy`, `virtqueue.dfy`, `virtio_mmio.dfy`,
  `virtio_protocol.dfy`, `virtio_memory.dfy`, `virtio_delivery.dfy`,
  `block_device.dfy`, `block_requests.dfy`, `block_worker.dfy`). The ring layout, descriptor chains and
  ring cells in guest RAM, byte by byte; the CPU thread's notify loop and the worker thread as an
  interleaved state machine over the 16-bit rings, the mutex and the one-slot
  mailbox; the same threads reading and storing guest RAM itself, each step shown to
  be one of that state machine's; and the disk: when a request is served, what it
  leaves, and what a read gets back over whole runs, sequential and interleaved.
* **Decoding and execution** (`decode.dfy`, `encode.dfy`, `assemble.dfy`,
  `compressed.dfy`, `compressed_execution.dfy`, `execute.dfy`, `division.dfy`,
  `word_results.dfy`, `alu_standards.dfy`, `register_standards.dfy`,
  `instruction_standards.dfy`). The two decoders, the standard's encodings which
  `dec32` is shown to undo, the expansion of compressed instructions, the executor, and
  exactly when its results, and what each class of instructions does to the machine, are
  the standard's.
* **Memory** (`memory.dfy`, `address_space.dfy`, `dispatch.dfy`, `translation.dfy`,
  `translation_standard.dfy`, `fetch.dfy`, `faults.dfy`, `reservations.dfy`). RAM
  accesses and chunked copies, the dispatch tree, the Sv39 walk and exactly when it is
  the standard's, page-crossing fetch, precise restartable page faults, and what
  load-reserved and store-conditional owe the standard.
* **Traps and interrupts** (`hart.dfy`, `traps.dfy`, `trap_standards.dfy`, `plic.dfy`,
  `clint.dfy`) and the hart itself (`cpu.dfy`), whose methods update registers, CSRs,
  privilege and RAM in place and are proved against the functions on states. Trap entry,
  return and delegation are also stated by register number and bit, and the timer is
  followed from the guest's write of a deadline to the hart's trap handler.

`words.dfy`, `fields.dfy` and `wrappers.dfy` hold machine words, bit fields and result
types. A run that leaves the model ends in `Stop` with a reason: the program
called `panic`, it touched an address not backed by RAM, the C code has no
defined result, or the instruction is a floating-point one. What C defines is read
as GNU C reads it, without `-fwrapv`: signed overflow and a shift by the width or more
are undefined; conversions to signed types and shifts of signed values are not.

## Where the code differs from its standards

The model follows the code. These facts are stated by lemmas or visible in the
specification functions:

* `dec16` panics on the C.ADD hints (rd = x0, rs2 not x0) and on C.FSDSP; on every
  other encoding that is not reserved it agrees with `dec32` on the expansion
  (`AgreesIff`, `CompressedSteps`, `MistakenSteps`). Of the reserved encodings it
  refuses only quadrant 0 with funct3 4; the others, the all-zero word among them,
  run as an instruction that is given (`ReservedIff`, `ReservedMeaning`,
  `ReservedSteps`, `ZeroIsAccepted`).
* MULH and MULHSU widen unsigned values. MULHSU is right exactly for a nonnegative
  first operand or a zero second one, MULH exactly for two nonnegative operands, a
  zero one, or the most negative number squared; from 2^127 up the widened product is
  undefined (`MulhsuIff`, `MulhIff`). MUL, and ADDIW, ADDW, SUBW and MULW, are right
  exactly when the signed 64-bit, or 32-bit, result does not overflow, and else
  undefined (`MulIff`, `WordArithmeticIff`).
* SRAW takes six bits of its amount: it is right exactly when bit 5 of the register
  is clear, and else undefined in C (`SrawIff`). SRAIW takes six bits too, but its
  decoded amount never exceeds 31, so it is always right (`SraiwAmount`,
  `SraiwAgrees`).
* A 32-bit result that is defined is sign-extended exactly off DIVUW by zero, REMUW by
  zero of a word with its top bit set, and a word AMO (SC.W apart) whose old word has
  its top bit set (`SignExtendedIff`, `WordResultIff`).
* JALR does not clear the lowest bit of its target, which is right exactly for an even
  one (`JalrIff`). A page fault of LR raises the store exception 15 instead of 13; every
  other access raises its own (`FaultCauseIff`).
* SRET and MRET leave xPIE and xPP alone, so the status register is the standard's
  exactly when they were 1 and U-mode already (`ReturnStatusIff`), and run at every
  privilege (`SretSteps`, `MretSteps`). A trap vector is taken for an address, whose low
  two bits are not its mode: right exactly when they are 0 (`VectorIff`).
* An SC always stores and gives 0. The standard allows that exactly when the last LR
  covers its bytes and no SC nor foreign store to them came since (`ScStores`,
  `ScIff`, `ScWithoutLr`).
* A trap taken at privilege 2, which MRET can set from a reserved MPP value, and
  delegated to S-mode lowers the privilege, and its return gives back S-mode: SPP
  has one bit (`EnterRaises`, `RunRestores`).
* Translation looks at no permission, accessed, dirty or superpage-alignment bit, nor
  at MPRV, SUM or MXR, and ignores virtual address bits 63:39. It is the standard's
  exactly when the hart does not translate, or the address is canonical and the leaf
  found, if one is, passes the checks; MPRV adds two cases (`TranslateIff`,
  `TranslateUnmodified`, `StoreToReadOnly`).
* An interrupt is taken by its target's xIE whatever mode the hart is in. So one for a
  higher mode is lost exactly when that mode's xIE is clear, S-mode interrupts in U-mode
  included, and at privilege 2 one for S-mode is taken exactly when SIE is set
  (`InterruptIff`, `LostBelowMachine`, `LostBelowSupervisor`, `TakenIntoLower`).
* `sstatus` and `mstatus` are separate cells (`CsrReadsBack`). A trap whose vector is 0
  is taken for no trap by the main loop, which after a fetch fault runs the word 0 in
  the handler's state (`FetchTrapIff`), and after an interrupt the interrupted
  instruction, in the handler's mode (`ZeroVectorRuns`).
* A PLIC poll looks only at the least ready id of each pending word, so a low
  priority interrupt can hide a high priority one of its word (`PollMissesIff`,
  `PollCanMiss`).
* `vring_init` leaves out `used_event`; the used ring still lies where the legacy
  layout puts it for power-of-two sizes and 16-byte alignment
  (`LayoutIsLegacyIff`, `LayoutCanMove`, `PowerOfTwoIsLegacy`).
* Ring slots stay distinct across 16-bit index wrap exactly for ring sizes that
  divide 65536 (`SlotsDistinctIff`).

## Model

| member | source | states |
|---|---|---|
| Lists.RingInverse | list.h:85-95 | in a ring, prev and next are inverse at every node |
| Lists.ListAdd | list.h:97-113 | adding puts the node at the front of the sequence and keeps the ring |
| Lists.ListAddTail | list.h:115-120 | adding at the tail appends the node |
| Lists.ListDel | list.h:122-141 | deletion removes exactly that node from the sequence and clears its links |
| Lists.ListMove | list.h:148-153 | moves a node to the front of another list, or of its own |
| Lists.ListMoveTail | list.h:160-165 | moves a node to the tail of another list, or of its own |
| Lists.ListSpliceInit | list.h:173-203 | joins one whole list in front of another and leaves the first empty |
| Lists.ListSpliceTailInit | list.h:213-221 | joins one whole list behind another and leaves the first empty |
| Lists.Drain | module.c:362-367 | a safe traversal that deletes its cursor empties the list and unlinks every node |
| Lists.Walk | list.h:75-78 | the traversal macro visits exactly the list's nodes in order |
| DependencyOrder.FirstExportFinds | module.c:191-202 | a symbol lookup finds an export exactly when there is one, and it is the first |
| DependencyOrder.ResolveMeaning | module.c:204-241 | the dependency list has no repeats and is exactly the owners of the first exports of the undefined symbols |
| DependencyOrder.SortedIsExactlyRequired | module.c:298-360 | the emitted order has no repeats and is exactly what is reachable from the selected modules |
| DependencyOrder.LoadOrderResolves | module.c:191-360 | each undefined symbol of an emitted module is exported by the kernel image or by a strictly earlier module |
| DependencyOrder.UnresolvedIff | module.c:217-241 | the unresolved-symbol panic happens exactly when some module needs a symbol nobody exports |
| DependencyOrder.CyclicIff | module.c:352-360 | given that, the cyclic-chain panic happens exactly when a selected module reaches a dependency cycle |
| ModuleLoader.MatchUndef | module.c:191-202 | the loop returns the first symbol of that name |
| ModuleLoader.FindDependency | module.c:204-215 | the loop decides membership in the dependency list |
| ModuleLoader.Loader.CheckDependency | module.c:217-241 | builds the specified dependency list and consumes the undefined symbols, or reports the missing one |
| ModuleLoader.Loader.TraverseDependency | module.c:298-332 | the three-state recursion terminates on every graph, marks what the specified visit marks, and never touches the list of a module being visited |
| ModuleLoader.Loader.SortModules | module.c:334-368 | the three passes give the specified result, emit its order and drain the symbol table |
| ModuleLoader.Loader.ClearModules | module.c:370-382 | empties the module list |
| VirtioRing.LayoutIsLegacyIff | virtio.c:150-164 | the used ring is where the legacy layout puts it exactly when the shorter available ring does not end at, or one byte before, a multiple of the alignment |
| VirtioRing.LayoutCanMove | virtio.c:150-164 | one descriptor at 4096 with alignment 2 is such a case: 4118 instead of 4120 |
| VirtioRing.PowerOfTwoIsLegacy | virtio.c:150-164 | so it is for every power-of-two size on 16-byte aligned rings |
| VirtioRing.FollowIsChain | virtio.c:57-99 | the collecting loop returns a list exactly when it is the descriptor chain and fits 1024 entries |
| VirtioRing.IndirectIsChain | virtio.c:57-99 | the request read is the chain in order, each buffer with its direction, in_len the device-writable bytes modulo 2^32; one is read exactly when such a chain exists |
| VirtioRing.StoreField | virtio.c:174-182 | storing one field of a used entry changes that cell and no other ring cell |
| VirtioRing.UsedWriteView | virtio.c:166-185 | writing the used ring fills the cell of its index modulo the size, then publishes the next index |
| VirtioRing.PopView | virtio.c:13-47 | a pop takes nothing exactly at equal indices; else its head is the cell of that index modulo the size, and both rings stay as they were |
| VirtioRing.PopOkIff | virtio.c:120-148 | at unequal indices a pop succeeds exactly when the waiting head lies in the ring and its indirect descriptor names a table that holds a chain of at most 1024 |
| VirtioLayout.DescIff | virtio.h:173-179 | a descriptor is read exactly when its address is 8-byte aligned and the 8, 4, 2 and 2 bytes at offsets 0, 8, 12 and 14 are in RAM, and they are its address, length, flags and next |
| VirtioLayout.DescReadsBack | virtio.c:49-55 | a descriptor laid out so in a buffer reads back |
| VirtioLayout.FlagBits | virtio.c:75-94 | NEXT, WRITE and INDIRECT are the weights 1, 2 and 4 of the stored flags |
| VirtioLayout.IndirectIff | virtio.c:57-99 | a request is read from a table exactly when its memory holds at most 1024 linked descriptors, and has one buffer for each and the sum of the lengths marked WRITE |
| VirtioLayout.LaidOutIs | virtio.c:150-164 | the available ring starts 16 bytes a descriptor after the base, the used ring at the least multiple of the alignment after its 4 + 2 * num bytes |
| VirtioLayout.RingsIff | virtio.h:181-199 | each ring index and cell by its address |
| VirtioLayout.UsedWriteReads | virtio.c:166-185 | afterwards the entry at 4 + 8 * slot holds the head and the length, and the index at 2 is the next one |
| VirtioLayout.EventReads | virtio.c:120-136 | with event indices the next index to pop stands behind the used ring |
| Virtqueue.VQueue.InitVring | virtio.c:150-164 | sets up the ring addresses as specified, or panics |
| Virtqueue.VQueue.DescReadIndirect | virtio.c:57-99 | the loop returns the specified request, its byte count kept modulo 2^32 |
| Virtqueue.VQueue.Pop | virtio.c:120-148 | changes RAM, the next index and the result as specified |
| Virtqueue.VQueue.UsedWrite | virtio.c:174-185 | changes RAM and the used index as specified |
| VirtioMmio.ShiftOfPower | virtio_mmio.c:109-113 | a guest page size of 2^k gives a shift of k |
| VirtioMmio.LowestBit | virtio_mmio.c:109-113 | for any other size the shift is the place of its lowest set bit |
| VirtioMmio.QueueAtPage | virtio_mmio.c:109-126 | page size then page number put the queue at that page |
| VirtioMmio.PopAllMeaning | virtio_mmio.c:136-139 | popping until the ring is empty takes every waiting request, in ring order, and leaves both rings as they were |
| VirtioMmio.PopAllOkIff | virtio_mmio.c:136-139 | it succeeds exactly when every waiting head can be popped |
| VirtioMmio.MmioDevice.Notify | virtio_mmio.c:136-139 | the loop leaves RAM, the next index and the requests handed over, or stops, as popping until the ring is empty does |
| VirtioMmio.MmioDevice.WriteReg | virtio_mmio.c:84-156 | a register write succeeds exactly for a 4-byte access at one of ten offsets (and a queue page whose ring can be set up), changes the register of that offset, and leaves all others alone; an acknowledgement clears exactly the interrupt bits written |
| VirtioProtocol.SlotsDistinctIff | virtio.c:36-47 | fewer than num consecutive indices never share a slot exactly when num divides 65536 |
| VirtioProtocol.StepKeeps | virtio_blk.c:351-403 | every step of either thread or the driver keeps the invariant |
| VirtioProtocol.RunKeeps | virtio_blk.c:351-403 | so does every run |
| VirtioProtocol.ExactlyOnceInOrder | virtio_blk.c:351-403 | popped requests are published, held by the worker, in the mailbox or being deposited, in the order offered; at most one ring is in flight |
| VirtioProtocol.DriverReadsBack | virtio.c:174-185 | the driver sees a new entry exactly when one was published, and it names the next request it offered, in whole |
| VirtioProtocol.NeverPanics | virtio.c:36-47 | a pop never meets a head outside the ring |
| VirtioProtocol.NeverStuck | virtio_blk.c:351-403 | from every reachable state the oldest pending request can be published within 18 steps with no spurious wakeup |
| VirtioMemory.ServeIsMoves | virtio_blk.c:320-349 | the worker's five steps on RAM and file, taken together, are _do_request |
| VirtioMemory.PopIsMoves | virtio.c:120-148 | the CPU thread's steps on RAM, taken together, are vqueue_pop |
| VirtioMemory.BodyFrame | virtio_blk.c:232-349 | before completion the worker stores only into the request's data buffers and status byte |
| VirtioMemory.CpuRefines | virtio.c:13-148 | each step of the CPU thread, reading the rings and descriptors in RAM, is its step of the protocol and can be taken exactly when that can |
| VirtioMemory.WorkerRefines | virtio_blk.c:232-374 | so is each step of the worker, header read, data, status byte and used-ring stores included; only a request that cannot be served stops it |
| VirtioMemory.RunRefines | virtio_blk.c:351-403 | every run on RAM, in which the driver keeps its descriptors and buffers apart, is a run of the protocol, and RAM holds its rings |
| VirtioMemory.PublishedInRam | virtio.c:174-185 | so in RAM the used index counts the requests published, the first ones offered, and every unread used entry names its request |
| VirtioMemory.NeverStuckInRam | virtio_blk.c:351-403 | from every state of RAM and threads the oldest pending request, if it fits, can be published within 18 turns, and the used index in RAM then says so |
| VirtioDelivery.ReadReachesDriver | virtio_blk.c:243-277 | from the step that serves a read on, its buffers hold the file's bytes in order, whatever the threads and the guest do elsewhere |
| VirtioDelivery.WriteReachesFile | virtio_blk.c:279-308 | what the driver put in a write's buffer, left alone until it is served, is then in the file at its sector, and no other file byte changes |
| VirtioDelivery.FileIsServed | virtio_blk.c:320-374 | after every interleaved run the file is what serving its requests one after the other makes of it |
| VirtioDelivery.ServedInOrder | virtio_blk.c:351-403 | these are the requests offered, in the driver's order, each once |
| VirtioDelivery.InterleavedReadGetsLastWrite | virtio_blk.c:232-403 | over every interleaved run a read leaves in its buffers the bytes of the last write to its range, whatever is served between that spares it |
| BlockDevice.ScatterGather | virtio_blk.c:261-270 | scattering file bytes over disjoint buffers and reading the buffers in order gives the file bytes |
| BlockDevice.FileRoundTrip | virtio_blk.c:291-302 | bytes written to the file read back there, every other file byte stays, and a gap before them is zeros |
| BlockDevice.CompleteFrame | virtio_blk.c:232-241 | completion stores nothing but the status byte and used-ring cells |
| BlockRequests.ScatterOkIff | virtio_blk.c:261-270 | data is scattered exactly when every buffer is 8-byte aligned and in RAM and the file holds enough bytes |
| BlockRequests.ServedIff | virtio_blk.c:232-349 | a request is served exactly when header, buffers, status byte, used ring and file size are as its operation needs |
| BlockRequests.AsksIff | virtio_blk.c:320-332 | the header found is the one whose type, priority and sector stand, in 4, 4 and 8 bytes, in the first buffer |
| BlockRequests.ReadDelivers | virtio_blk.c:243-277 | a request of type 0 or 0x80000000 is served exactly then, and leaves the bytes at 512 times its sector in its buffers, however scattered, and 0 in the status byte; neither the file nor other guest memory changes |
| BlockRequests.WriteStores | virtio_blk.c:279-308 | a request of type 1 or 0x80000001 is served exactly then, and puts its buffer in the file at 512 times its sector, growing it if need be; no other file byte changes, nor guest memory beyond status and used ring |
| BlockRequests.FlushCompletes | virtio_blk.c:310-318 | a request of type 4, with or without the two flag bits, is served exactly then, and changes only status and used ring |
| BlockRequests.RunServedIff | virtio_blk.c:320-349 | a whole run is served exactly when each request fits the file as the earlier ones left its size |
| BlockRequests.EachFits | virtio_blk.c:320-349 | it is enough that each request fits the file as it was at the start |
| BlockRequests.PlacedCompletes | virtio_blk.c:232-241 | with the ring in RAM, completion needs only the status byte there |
| BlockRequests.RunSpares | virtio_blk.c:320-349 | a run of requests that spare a file range leaves its bytes |
| BlockRequests.ReadGetsLastWrite | virtio_blk.c:232-349 | over whole runs of requests that fit, a read gets the bytes of the last write to its range, whatever comes between and whatever the guest does to its memory |
| BlockWorker.BlkDevice.HandleRead | virtio_blk.c:243-277 | the loop over the buffers does what is specified |
| BlockWorker.BlkDevice.HandleWrite | virtio_blk.c:279-308 | the file, RAM and used index change as specified |
| BlockWorker.BlkDevice.Complete | virtio_blk.c:232-241 | status, used ring, interrupt status bit 0 and the interrupt signal are set |
| BlockWorker.BlkDevice.DoRequest | virtio_blk.c:320-349 | the request is dispatched on its header as specified |
| Encode.DecodeEncoded | dec32.c:11-499 | decoding the standard's encoding of every instruction a compressed one expands to yields that instruction, up to fields its format lacks |
| Assemble.Disassembles | dec32.c:11-499 | so for every RV64IMA, CSR, fence, trap-return and system instruction: the operation and all its operands come back |
| Compressed.AgreesIff | dec16.c:12-412 | dec16 agrees with the standard's expansion exactly when the encoding is neither C.FSDSP nor a C.ADD hint |
| Compressed.ReservedIff | dec16.c:12-412 | a reserved encoding is refused exactly in quadrant 0 with funct3 4 |
| Compressed.ReservedMeaning | dec16.c:12-412 | every other reserved encoding is decoded to one given instruction |
| Compressed.ZeroIsAccepted | dec16.c:85-98 | the all-zero word, reserved by the standard, is one of these |
| CompressedExecution.ExecRealizes | execute.c:33-591 | execution does not read the fields a format does not have |
| CompressedExecution.CompressedSteps | dec16.c:85-412 | a compressed instruction and its 32-bit expansion take the same step from every state |
| CompressedExecution.MistakenSteps | dec16.c:348-383 | the two excepted families really stop the emulator |
| CompressedExecution.ReservedSteps | execute.c:33-591 | what an accepted reserved encoding does: copy the stack pointer, nothing, clear a register, or, and, load into x0, or jump to 0 |
| Division.SignedDivision | execute.c:355-381 | dividend = divisor * quotient + remainder exactly unless the division overflows, and then modulo 2^64; the remainder's size and sign; all bits set for a zero divisor |
| Division.UnsignedDivision | execute.c:365-389 | dividend = divisor * quotient + remainder always, the remainder below a nonzero divisor, all bits set for a zero one |
| Division.SignedWordDivision | execute.c:395-421 | the signed identity on the low words, exactly unless the word division overflows |
| Division.UnsignedWordDivision | execute.c:405-429 | the unsigned identity on the low words, always |
| WordResults.SignExtendedIff | execute.c:163-429 | a word register operation is defined exactly off signed overflow and shifts by 32 or more, and then leaves a sign-extended result except exactly for DIVUW by zero and REMUW by zero of a word with its top bit set |
| WordResults.WordResultIff | execute.c:86-541 | so does every executed instruction with a 32-bit result, LW, LR.W and SC.W included, but for a word AMO whose old word has its top bit set |
| AluStandards.MulhIff | execute.c:343-345 | MULH is right exactly for two nonnegative factors, a zero one, or the most negative number squared, and undefined exactly from 2^127 up |
| AluStandards.MulhsuIff | execute.c:347-349 | MULHSU is right exactly for a nonnegative first factor or a zero second one, and undefined exactly from 2^127 up |
| AluStandards.MulIff | execute.c:339-353 | MULHU is always right; MUL gives the low doubleword exactly when the signed product fits 64 bits, and else is undefined |
| AluStandards.WordArithmeticIff | execute.c:167-201 | ADDIW, ADDW, SUBW and MULW give the sign-extended low word of the 64-bit result exactly when the signed word result fits, and else are undefined |
| AluStandards.SrawIff | execute.c:255-257 | SRAW is right exactly when bit 5 of its amount is clear, and else undefined |
| AluStandards.SraiwAmount | dec32.c:242-245 | no decoded SRAIW has an amount above 31 |
| AluStandards.SraiwAgrees | execute.c:247-249 | so every decoded SRAIW is right |
| RegisterStandards.SumsAreRight | execute.c:38-45 | LUI, AUIPC, ADD, ADDI and SUB: taking the second operand away, or adding it back, gives the first, modulo 2^64 |
| RegisterStandards.ComparisonsAreRight | execute.c:175-193 | SLT, SLTU, SLTI and SLTIU give 1 exactly when the order holds, and else 0 |
| RegisterStandards.LogicIsRight | execute.c:215-273 | AND, OR, XOR and their immediate forms, bit by bit |
| RegisterStandards.ShiftsAreRight | execute.c:203-253 | the doubleword shifts, by six bits of the amount: what is shifted in is 0 or the sign |
| RegisterStandards.WordShiftsAreRight | execute.c:207-237 | the word shifts, by five bits, on the low word |
| InstructionStandards.ComputeSteps | execute.c:584-591 | a register or immediate operation writes rd alone and goes on |
| InstructionStandards.BranchSteps | execute.c:56-85 | a branch goes to pc plus its offset exactly when its condition holds of rs1 and rs2, else on, and changes nothing |
| InstructionStandards.JumpSteps | execute.c:46-54 | JAL and JALR leave the next address in rd and go to pc, or rs1, plus the offset |
| InstructionStandards.JalrIff | execute.c:51-54 | the target is the standard's exactly when it is even |
| InstructionStandards.LengthSteps | decode.c:20-28 | the next address is four bytes on exactly for an instruction whose two low bits are set, and else two |
| InstructionStandards.LoadSteps | execute.c:86-134 | a load leaves the bytes at rs1 plus the offset in rd, extended by their sign or by zeros |
| InstructionStandards.StoreSteps | execute.c:135-161 | a store puts the low bytes of rs2 at rs1 plus the offset, and changes nothing else |
| InstructionStandards.AtomicSteps | ram.c:32-153 | an AMO leaves the old value in rd and its operation of that and rs2, minimum, maximum, sum or logic of the doublewords or words, in memory |
| InstructionStandards.ReserveSteps | execute.c:431-434 | LR leaves the sign-extended value in rd |
| InstructionStandards.CsrSteps | execute.c:297-337 | a CSR instruction leaves the old value in rd, and in the CSR the operand, or the old value with its bits set or cleared |
| Dispatch.Register | address_space.c:44-51 | the heap represents the tree in which the registered child, with its own tree, comes first |
| Dispatch.AddDevice | address_space.c:29-51 | a space initialised and registered, as every device is, becomes the first child of the tree |
| Dispatch.Lookup | address_space.c:53-73 | the sibling loop and recursion reach the space, and offset, that the tree says |
| Dispatch.RegisterThenLookup | address_space.c:44-73 | after a registration an access the child covers goes into it, and every other goes where it went |
| Dispatch.OrderDoesNotMatter | address_space.c:62-70 | with disjoint children an address goes to the one that covers it, whatever the registration order |
| Dispatch.RegisteringReroutes | address_space.c:44-51 | registering a child takes over exactly the addresses it covers |
| Memory.ReadAfterWrite | ram.c:22-30 | a load sees the last store to its place and no store elsewhere |
| Memory.StoredBytes | ram.c:22-30 | a store puts byte k of its operand k places after its address, from 0x80000000 on |
| AddressSpace.PlainWrite | ram.c:135-153 | without an atomic operation a write stores the low bytes and returns the old value |
| AddressSpace.BlobRoundTrip | address_space.c:130-180 | a buffer copied to RAM reads back for every length and aligned address; no byte outside changes |
| AddressSpace.Bus.WriteNommu | address_space.c:90-113 | RAM and the returned value are those of the specified atomic operation |
| AddressSpace.Bus.ReadBlobInto | address_space.c:130-154 | the 8-byte loop and byte tail deliver the bytes of RAM in order |
| AddressSpace.Bus.WriteBlobFrom | address_space.c:156-180 | the 8-byte loop and byte tail leave the buffer in RAM |
| Translation.PageMovesTogether | mmu.c:37-78 | all addresses of one 4 KiB, 2 MiB or 1 GiB page share a frame and keep their offset |
| Translation.HighBitsIgnored | mmu.c:37-78 | only the low 39 bits of an address matter |
| Translation.WalkReadsVisited | mmu.c:37-78 | a translation depends only on the entries it visits |
| Translation.StoreKeepsTranslation | mmu.c:37-78 | a store that misses the visited entries changes no translation |
| Translation.InstallFrame | mmu.c:37-78 | installing a mapping writes only its slots |
| Translation.InstallThenWalk | mmu.c:37-78 | an installed mapping is found, at its level |
| TranslationStandard.WalkIsStandard | mmu.c:26-78 | the standard's walk ends where the code's does, and grants the access exactly if the leaf passes the checks |
| TranslationStandard.TranslateIff | mmu.c:16-79 | for every access and setting of mstatus, the translation is the standard's exactly under a condition on the walk's leaf and the address |
| TranslationStandard.TranslateUnmodified | mmu.c:16-79 | with MPRV clear: exactly if nothing is translated, or the address is canonical and the leaf, if any, passes the checks |
| TranslationStandard.StoreToReadOnly | mmu.c:37-48 | a store to a page that is readable only goes through |
| TranslationStandard.SlotIsEntry | mmu.c:32-72 | the entry read at each level is the one VPN[i], address bits 38:30, 29:21 or 20:12, names |
| TranslationStandard.LeafFields | mmu.c:37-78 | the physical address is the entry's bits from 28, 19 or 10 to 53 before the address bits below |
| TranslationStandard.PteIsStd | mmu.c:10-48 | validity and leaf are read off bits V, R, W and X, the next table off bits 53:10 |
| TranslationStandard.SameSlotIff | mmu.c:32-72 | two addresses use the same entry of a table exactly if their VPN[i] agree |
| TranslationStandard.PagesDiffer | mmu.c:32-72 | canonical addresses of different pages differ in some VPN[i] |
| Reservations.ScStores | execute.c:436-440 | an SC that reaches RAM stores rs2 and gives 0 |
| Reservations.HeldIff | execute.c:431-440 | the reservation of the standard is that of the last LR with nothing harmful since |
| Reservations.ScIff | execute.c:431-440 | after every run, this is what the standard allows exactly when the last LR covers the bytes, with no SC nor foreign store to them since, or nothing could be told apart |
| Reservations.ScWithoutLr | execute.c:436-440 | on a fresh hart an SC with no LR succeeds, which the standard does not allow |
| Fetch.ReadVirtBytes | address_space.c:75-88 | a read inside a page goes through exactly when its first and last byte do, and is its bytes each translated on its own: all translate, or none |
| Fetch.FetchJoinsBytes | xemu.c:33-59 | for every even pc, fetch goes through exactly when the bytes it needs can be read; it joins four bytes each translated on its own, across a page boundary too, or faults at the first half that fails with epc = pc |
| Faults.FaultRaises | execute.c:86-161 | a faulting load, store or AMO does nothing but raise its exception |
| Faults.FaultIsPrecise | execute.c:584-591 | no register or memory changes; epc, cause and tval identify the access |
| Faults.RepairReturns | trap.c:53-83 | exception, repair and return give back the interrupted state with the repaired memory, at the privilege the return restores |
| Faults.FaultRestarts | execute.c:431-541 | re-execution then has the effect it would have had with no fault, apart from trap CSRs |
| Traps.SEntryBits | trap.c:14-33 | what S-mode entry does to each sstatus field |
| Traps.MEntryBits | trap.c:34-47 | what M-mode entry does to each mstatus field |
| Traps.ExitUndoesEntry | trap.c:62-76 | SRET and MRET recover the interrupted enable bit and leave the unrelated status bits |
| Traps.EnterRaises | trap.h:29-46 | a trap lowers privilege exactly from 2 to S-mode, and one to M-mode leaves S-mode trap state untouched |
| Traps.EnteredIsMasked | trap.c:103-128 | right after entry no interrupt of the entered mode is taken |
| Traps.InterruptIff | trap.c:103-128 | an interrupt is taken as the global-enable rule says exactly when it is off itself, the hart is in its target mode, or xIE is set just when the target is higher; which are lost and which come too early |
| Traps.LostBelowMachine | trap.c:116-127 | in S-mode with MIE clear an enabled machine timer interrupt is lost |
| Traps.LostBelowSupervisor | trap.c:104-115 | in U-mode with SIE clear an enabled delegated timer interrupt is lost |
| Traps.TakenIntoLower | trap.c:104-115 | at privilege 2 with SIE set a delegated timer interrupt is taken |
| Traps.ReturnRestores | trap.c:52-83 | one return restores pc, privilege (2 becomes S-mode from S-mode) and enable bits |
| Traps.RunRestores | trap.c:8-131 | so does every return of nested runs of any depth whose handlers save and restore their mode's status and epc; privilege comes back exactly unless it was 2 and the trap went to S-mode |
| TrapStandards.EntryCells | trap.c:8-50 | a trap writes epc, cause and tval of its mode, by number, and in its status register the previous mode and enable bit, by bit; every other CSR stays and the handler is the mode's vector |
| TrapStandards.DelegationIff | trap.h:23-46 | an exception goes to S-mode exactly when it does not come from M-mode and its bit of medeleg is set |
| TrapStandards.VectorIff | trap.c:31-46 | the handler is where the standard puts it exactly when the vector's mode bits are 0 |
| TrapStandards.SretSteps | trap.c:62-68 | SRET goes to sepc, in S-mode exactly if SPP is set and else in U-mode, and SIE becomes SPIE; nothing else changes |
| TrapStandards.MretSteps | trap.c:70-76 | MRET goes to mepc, at the privilege of MPP, and MIE becomes MPIE; nothing else changes |
| TrapStandards.ReturnStatusIff | trap.c:52-83 | the status left is the standard's exactly when xPIE was set and xPP U-mode |
| TrapStandards.EcallSteps | execute.c:281-284 | ECALL raises 8 plus the privilege, where medeleg sends it |
| TrapStandards.FaultCauseIff | execute.c:86-541 | a page fault raises 13 for loads and 15 for stores, SC and AMOs, at its address; LR raises 15, not 13 |
| TrapStandards.FetchFaultCause | xemu.c:33-59 | a fetch fault raises 12 with the first half that does not translate |
| TrapStandards.InterruptCells | trap.c:85-131 | an interrupt goes to S-mode exactly when its bit of mideleg is set and the hart is not in M-mode; it is taken exactly when the target's enable bits are set, with its pending bit set and its number in the cause |
| TrapStandards.DeadlineReachesHandler | clint.c:69-118 | in every run, once the clock has reached the last deadline written, seven more steps of the threads bring a hart with timer interrupts enabled to its handler |
| Plic.SignalAdds | plic.c:53-67 | a signal adds exactly its id to the pending set |
| Plic.ClaimRemoves | plic.c:69-118 | a claim removes exactly the claimed id and keeps the claim register |
| Plic.HasFirst | plic.c:208-223 | a first set bit exists exactly in a nonzero word |
| Plic.PollMeaning | plic.c:225-252 | a poll returns the least ready id of the first word whose least ready id passes the threshold, else 0 |
| Plic.PollMissesIff | plic.c:238-249 | it returns 0 exactly when every ready id above the threshold is hidden by a lower ready one of its word that does not pass |
| Plic.PollCanMiss | plic.c:238-249 | ids 1 and 2 pending and enabled, only 2 with a priority: the poll returns 0 |
| Plic.WriteMeaning | plic.c:120-184 | a write is accepted exactly at a priority, threshold or enable register, or at a claim register for its value; it changes that register alone, and nothing pending |
| Plic.ReadMeaning | plic.c:84-118 | a read is accepted exactly at the supervisor enables and at claim registers, and gives the bits that were enabled |
| Plic.RunMeaning | plic.c:53-252 | over every run of signals, polls, reads and writes of any address: pending is what was signalled and not claimed since, and a claim register the last id polled for its mode since its last completion, else 0 |
| Plic.ClaimIff | plic.c:98-115 | a claim read returns that id and makes it no longer pending; with none, machine mode panics and supervisor mode reads 0 |
| Plic.CompleteIff | plic.c:160-178 | a write to a claim register is accepted exactly for that id, and empties it |
| Plic.Controller.SignalId | plic.c:53-67 | the pending word changes as specified |
| Plic.Controller.ReadReg | plic.c:84-118 | each register read does what is specified |
| Plic.Controller.WriteReg | plic.c:120-184 | each register write does what is specified (and WriteMeaning says) |
| Plic.Controller.FirstOne | plic.c:208-223 | the shifting loop finds the least set bit |
| Plic.Controller.Interrupt | plic.c:225-252 | the loop over the words returns and records what a poll specifies |
| Clint.StepKeeps | clint.c:73-118 | every micro-step of either thread or the clock keeps the invariant |
| Clint.NeverEarlyNeverLost | clint.c:73-118 | in every run a pending timer has reached its deadline at every step, and outside a write that is the deadline the guest wrote last, which is then pending or armed |
| Clint.RunHolds | clint.c:62-90 | in every run mtimecmp is the data of the last write to it, the software flag whether the last write to msip was not 0, the clock the ticks so far |
| Clint.SignalledIff | clint.c:41-51 | the software interrupt is signalled exactly when that flag is set and no timer interrupt is pending |
| Clint.FiresWhenDue | clint.c:94-118 | an armed, due deadline fires within seven steps with no spurious wakeup |
| Clint.DeadlineFires | clint.c:94-118 | in every run, once the clock has reached the last deadline written, seven more steps signal the timer interrupt |
| Clint.FiresOnce | clint.c:113-117 | the timer thread that has fired a deadline sleeps three steps later, the interrupt pending |
| Hart.CsrReadsBack | csr.c:86-207 | a CSR write returns the old value, is read back where there is storage, and changes no other CSR: sstatus and mstatus are two cells |
| Cpu.Core.CsrUpdate | csr.c:179-207 | one CSR changes, or the access traps and none does |
| Cpu.Core.TrapEnter | trap.c:8-50 | the CSR sequence gives the specified entry |
| Cpu.Core.SretExit | trap.c:62-68 | the CSR sequence gives the specified return |
| Cpu.Core.MretExit | trap.c:70-76 | the CSR sequence gives the specified return |
| Cpu.Core.HandleInterrupt | trap.c:85-131 | an interrupt is taken as specified, or nothing changes |
| Cpu.Core.Mmu | mmu.c:16-79 | the unrolled three levels equal the recursive walk |
| Cpu.Core.AsWrite | address_space.c:115-128 | a virtual write changes RAM as specified or faults and changes nothing |
| Cpu.Core.FetchInst | xemu.c:33-59 | the in-place fetch gives the specified word or trap |
| Cpu.Core.ExecuteInst | execute.c:14-591 | registers, CSRs, privilege, RAM and next pc are those specified |
| Cpu.Core.Round | xemu.c:113-160 | one round of the main loop does what is specified, a zero trap vector included |
| Cpu.FetchTrapIff | xemu.c:131-153 | a fetch fault reaches its handler exactly if the vector is not 0, one indistinguishable case apart; else the word 0 runs in the handler's state |
| Cpu.ZeroRegisterStays | execute.c:584-591 | in every run x0 keeps its value |

## Left out

- Devices behind the address space: an access that the dispatch tree sends to anything but RAM ends the run with OutsideRam.
- Floating point (`execute.c:543-578`): those operations end the run with FloatingPoint.
- Files, directories and ELF: module loading starts from symbol tables and undefined lists, the disk is a byte sequence, and system_map.c, flash.c and rom.c are not part of this model.
- uart.c, rtc.c, pci_host.c, fw_cfg.c, trace.c, yaml.c and all printing: register stubs and diagnostics; panic is an outcome.
- Clocks: the CSRs that read host clocks take their value from a parameter; the timer has an arbitrary monotone clock.
- Which source an interrupt comes from (`trap.c:93-101`) is a parameter of a round of the main loop, so PLIC and timer state are not threaded through it; DeadlineReachesHandler passes the timer's interrupt on to such a round.
- Decoder out-pointers: the decoders return a record instead of assigning through pointers.
- ModuleLoader.Loader.SortModules: the module, symbol and dependency lists are sequence fields; the pointer structure is proved separately for list.h.
- BlockWorker.BlkDevice.DoRequest: the interrupt status byte is not modelled as racing with the guest's acknowledgement, and plic_signal is a flag.
- VirtioProtocol.ExactlyOnceInOrder: the driver offers a request and publishes its index in one step, because no other thread pops.
- VirtioMemory.RunRefines: the worker scatters a request's data and stores its status byte in one step, the CPU thread reads a whole descriptor chain in one step, and the guest is constrained only in what it owes the device: it is not modelled instruction by instruction.
- TranslationStandard.TranslateIff: satp modes other than Bare and Sv39, which an Sv39 hart never holds and the code takes for Sv39; and of the two schemes the standard offers for a clear A or D bit, the one that faults.
- Reservations.ScIff: stores of devices appear as single stores between instructions.
- Plic.Controller.SignalId: ids above 127 end with Undefined, because priorities exist only up to 127.
- Plic.Controller.WriteReg: priority writes past the array end with Undefined, because the C code leaves its array there.
- virtio_mmio_read and the virtio configuration space: plain lookups.
