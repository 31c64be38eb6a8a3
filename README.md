# simple-projects, modelled in Dafny

This project models the sequential logic of several small programs from one repository and proves what they promise:

- **Direct3D 12 frame bookkeeping** (`LearningRendering/viddriver_d3d12.cpp`).
  - The `DescriptorAllocator` index pool: a bump cursor plus a LIFO free stack.
  - The per-frame slot of `frameNumber % N`, with its list of staging buffers.
  - The recycling of the render-target views in `ResizeSwapChain`/`CreateBackBuffers`.
  - The resource-state barrier pairs recorded by `UploadBuffer`, `SetRenderTargets` and `Present`.
  - The two fences, as monotone counters.
  - Modules `DescriptorHeap` and `FrameDriver`.
- **The disk repository's byte ring** (`diskrepository/diskrepository.h`).
  - `push` and `pull` serialise a record of integrals and length-prefixed strings into a circular buffer.
  - The double memory mapping that makes a wrapping copy contiguous is modelled as indexing modulo the capacity.
  - Module `DiskRepo`.
- **The CHIP-8 interpreter** (`Chip8Emulator/Chip8.cs`).
  - The big-endian fetch.
  - The first-match decode table with its mask/shift operands.
  - Every routine except draw, random and key-wait, as methods of a `Chip8` class over its arrays and registers.
  - The timer countdown, and the state `LoadROM` leaves.
  - Modules `Chip8Decode`, `Chip8Machine` (the snapshot semantics), `Chip8Core` (the class) and `Chip8Laws` (the properties).
- **The leetcode kernels.**
  - `core`: binary search, the four sliding-window routines, and depth-first search over an adjacency matrix.
  - Problems 35, 69, 94, 100, 101, 104, 219, 222, 594, 643 and 1763.
  - `parser.c`, which counts `"void test"` chunk by chunk and prints `1;2;...;n`.

Code that changes state stays imperative:
- classes with `modifies` clauses;
- arrays updated in place;
- loops with invariants.

Each method is proved against a specification function or predicate, and the properties of that specification are proved as lemmas. The trees of the tree problems are values of one datatype (`BinaryTrees.Tree`).

## Model

| member | source | states |
|---|---|---|
| DescriptorHeap.DescriptorAllocator.constructor | LearningRendering/viddriver_d3d12.cpp:86-89 | a fresh pool has an empty free stack, cursor 0 and nothing handed out |
| DescriptorHeap.DescriptorAllocator.Init | LearningRendering/viddriver_d3d12.cpp:47-59 | records the heap start and the device's handle increment, and leaves the pool as it was |
| DescriptorHeap.DescriptorAllocator.Allocate | LearningRendering/viddriver_d3d12.cpp:61-82 | throws HeapLimitReached exactly when AllocateSpec has no index; otherwise it returns the index AllocateSpec picks, with handle = heap start + increment × index, and adds it to the live set |
| DescriptorHeap.DescriptorAllocator.Release | LearningRendering/viddriver_d3d12.cpp:84 | pushes the index on the free stack unchecked and drops it from the live set |
| DescriptorHeap.ExhaustedIffAllLive | LearningRendering/viddriver_d3d12.cpp:62-66 | under the pool invariant, Allocate fails exactly when every one of the `Size` slots is held by a caller (cursor at Size and free stack empty) |
| DescriptorHeap.AllocateKeepsInvariant | LearningRendering/viddriver_d3d12.cpp:61-82 | allocation hands out an index below Size that no caller holds: from the top of the free stack when there is one (cursor unchanged), else the cursor (then cursor + 1) |
| DescriptorHeap.BumpKeepsInvariant | LearningRendering/viddriver_d3d12.cpp:68-71 | with an empty free stack and room left, the cursor index is held by nobody, and moving the cursor keeps the pool invariant |
| DescriptorHeap.PopKeepsInvariant | LearningRendering/viddriver_d3d12.cpp:72-75 | the top of a non-empty free stack is below Size and held by nobody, and popping it keeps the pool invariant |
| DescriptorHeap.ReleaseKeepsInvariant | LearningRendering/viddriver_d3d12.cpp:84 | releasing a held index once keeps every index either held or free, never both and never twice free, so no two live allocations share an index |
| DescriptorHeap.ReleaseThenAllocate | LearningRendering/viddriver_d3d12.cpp:72-84 | the index released last is the next one allocated, and the pool returns to its former state (LIFO) |
| DescriptorHeap.ReleaseAllPushes | LearningRendering/viddriver_d3d12.cpp:84 | releasing a list of indices appends them to the free stack in order |
| DescriptorHeap.AllocateManyPops | LearningRendering/viddriver_d3d12.cpp:72-75 | allocating n times pops the top n free indices, last pushed first |
| DescriptorHeap.ReleaseAllThenAllocateReverses | LearningRendering/viddriver_d3d12.cpp:284-306 | releasing N indices then allocating N yields the same indices in reverse order and leaves the pool exactly as before |
| DescriptorHeap.DoubleReleaseHandsOutTwice | LearningRendering/viddriver_d3d12.cpp:84 | Release does no check: releasing an index twice makes the next two allocations return it twice |
| DescriptorHeap.HandlesDistinct | LearningRendering/viddriver_d3d12.cpp:77-81 | with a positive increment, two different slots never share a CPU handle |
| FrameDriver.Buffer.constructor | LearningRendering/viddriver_d3d12.cpp:358-394 | a buffer created by the application starts with state tag COMMON and no data |
| FrameDriver.Buffer.Staging | LearningRendering/viddriver_d3d12.cpp:438-453 | a staging buffer starts in COMMON, holds the uploaded bytes and remembers its frame |
| FrameDriver.UploadRestoresStates | LearningRendering/viddriver_d3d12.cpp:455-509 | the five commands of one upload replay without error exactly when both stored tags equal the actual states; they then leave every resource in the state it started in |
| FrameDriver.UploadsRestoreStates | LearningRendering/viddriver_d3d12.cpp:435-510 | any number of uploads recorded in one list replay to the starting states, so the stored tags stay correct |
| FrameDriver.PresentBracketRestores | LearningRendering/viddriver_d3d12.cpp:814-823 | SetRenderTargets then Present is valid exactly when the slot's back buffer is in PRESENT, and it brings that buffer back to PRESENT |
| FrameDriver.AllocateManyStep | LearningRendering/viddriver_d3d12.cpp:297-307 | one more allocation in the CreateBackBuffers loop extends the handed-out list by that allocation's index |
| FrameDriver.AllocateManyFailsOnward | LearningRendering/viddriver_d3d12.cpp:297-307 | once an allocation in the loop fails, allocating more also fails |
| FrameDriver.FreshPoolBumps | LearningRendering/viddriver_d3d12.cpp:68-71 | from an untouched pool the cursor hands out m, m+1, ..., m+n-1 |
| FrameDriver.ClearedSlotFrame | LearningRendering/viddriver_d3d12.cpp:334-351 | a staging buffer in the slot EndFrame clears was created N frames before the new frame |
| FrameDriver.ReversedSameElements | LearningRendering/viddriver_d3d12.cpp:284-306 | reversing the back buffers' view indices keeps the same set of indices |
| FrameDriver.VidDriver.constructor | LearningRendering/viddriver_d3d12.cpp:145-279 | after InitAPI: frame 0, empty staging lists, and slot s's back buffer holds view index s |
| FrameDriver.VidDriver.CreateBackBuffers | LearningRendering/viddriver_d3d12.cpp:297-307 | succeeds exactly when the pool can hand out N views; the slots then hold those indices in allocation order, each with its heap handle |
| FrameDriver.VidDriver.BeginFrame | LearningRendering/viddriver_d3d12.cpp:309-312 | records the root signature binding and changes nothing else |
| FrameDriver.VidDriver.SetRenderTargets | LearningRendering/viddriver_d3d12.cpp:809-826 | records the PRESENT to RENDER_TARGET barrier and the binding for the back buffer of slot frameNumber % N |
| FrameDriver.VidDriver.Present | LearningRendering/viddriver_d3d12.cpp:314-332 | records the same slot's RENDER_TARGET to PRESENT barrier, then submits the list and presents that slot |
| FrameDriver.VidDriver.EndFrame | LearningRendering/viddriver_d3d12.cpp:334-351 | frameNumber grows by exactly one; the fence is waited up to at least the frame just finished; only the staging list of the new slot is cleared, and with N ≥ 2 it holds only buffers whose frames have completed |
| FrameDriver.VidDriver.UploadBuffer | LearningRendering/viddriver_d3d12.cpp:435-510 | appends exactly one fresh staging buffer holding the data to slot frameNumber % N, and records the upload's barrier pairs around the copy |
| FrameDriver.VidDriver.FlushAndWait | LearningRendering/viddriver_d3d12.cpp:739-758 | the frame fence reaches the current frame, the recorded list is submitted, and the flush counter grows by one and is reached |
| FrameDriver.VidDriver.ResizeSwapChain | LearningRendering/viddriver_d3d12.cpp:281-295 | always succeeds; the pool's free stack, cursor and live set end as they began, and the slots hold the former view indices in reverse order |
| DiskRepo.FromLittleEndianInverse | diskrepository/diskrepository.h:228-230 | the object bytes of a value that fits in w bytes read back as that value |
| DiskRepo.LittleEndianInverse | diskrepository/diskrepository.h:263-265 | any w bytes are the object bytes of exactly one value below 256^w |
| DiskRepo.DecodeOneEncode | diskrepository/diskrepository.h:219-289 | a field pulled from its own pushed bytes comes back unchanged, whatever bytes follow |
| DiskRepo.DecodeOneSound | diskrepository/diskrepository.h:254-289 | whatever a field pull accepts is the encoding of a value of the field's type |
| DiskRepo.DecodeAllEncodeAll | diskrepository/diskrepository.h:96-132 | FIFO round trip: the record pulled from the front is the record pushed, and the bytes after it stay in place |
| DiskRepo.DecodeAllSound | diskrepository/diskrepository.h:115-132 | every record a pull accepts is the encoding of a well-typed record |
| DiskRepo.PushStep | diskrepository/diskrepository.h:219-252 | one pushImpl succeeds exactly when the field's bytes fit; it then grows the size by the field's length and never exceeds the capacity |
| DiskRepo.PullStep | diskrepository/diskrepository.h:254-289 | one pullImpl succeeds exactly when a whole field is stored, and it consumes that field's bytes |
| DiskRepo.CommaFoldCommitsPartialRecords | diskrepository/diskrepository.h:103-112 | the comma fold as written reports success on the last field only: it commits a partial record on push and consumes bytes of a missing record on pull |
| DiskRepo.CapacityRule | diskrepository/diskrepository.h:19 | `((size / pageSize) + 1) * pageSize` is a multiple of the page size, strictly above the size and at most one page more |
| DiskRepo.WrapIsMod | diskrepository/diskrepository.h:40-57 | advancing an offset and wrapping once is the offset modulo the capacity |
| DiskRepo.WriteExtendsWindow | diskrepository/diskrepository.h:40-57 | copying bytes at the write position, wrapping at the end, appends them to the stored bytes and keeps the stored ones |
| DiskRepo.WindowAdvance | diskrepository/diskrepository.h:40-57 | consuming len stored bytes moves the read position by len modulo the capacity and leaves the rest stored |
| DiskRepo.StringPushed | diskrepository/diskrepository.h:235-252 | a length prefix and then the bytes append the string's encoding; a prefix whose bytes did not fit leaves the stored bytes unchanged |
| DiskRepo.TextPulled | diskrepository/diskrepository.h:270-289 | reading a string reads its size_t prefix and then that many bytes |
| DiskRepo.DiskRepository.constructor | diskrepository/diskrepository.h:16-21 | no buffer yet, nothing stored, both offsets 0 |
| DiskRepo.DiskRepository.Capacity | diskrepository/diskrepository.h:213-216 | a whole number of pages, strictly more than was asked for and at most one page more |
| DiskRepo.DiskRepository.Open | diskrepository/diskrepository.h:26-76 | a fresh zero-filled mapping of the capacity; with a backup file, the file offset is the file's length |
| DiskRepo.DiskRepository.Reset | diskrepository/diskrepository.h:204-211 | nothing stored; both offsets and the file offset are 0 |
| DiskRepo.DiskRepository.WriteBytes | diskrepository/diskrepository.h:228-230 | the wrapping copy appends the bytes to what the ring holds |
| DiskRepo.DiskRepository.ReadBytes | diskrepository/diskrepository.h:263-265 | the wrapping copy out returns the len bytes from the offset |
| DiskRepo.DiskRepository.PushBytes | diskrepository/diskrepository.h:223-231 | fails exactly when the bytes do not fit after the local size; otherwise appends them and advances the local pair |
| DiskRepo.DiskRepository.PushIntegral | diskrepository/diskrepository.h:219-233 | an integral push succeeds iff size + sizeof(T) ≤ capacity; it then appends the object bytes and advances the offset by sizeof(T) modulo the capacity |
| DiskRepo.DiskRepository.PushString | diskrepository/diskrepository.h:235-252 | appends the size_t prefix and the bytes when both fit; when only the prefix fits, it fails with the prefix counted in the locals |
| DiskRepo.DiskRepository.PullBytes | diskrepository/diskrepository.h:258-266 | fails exactly when fewer than len bytes are left; otherwise returns them and advances past them |
| DiskRepo.DiskRepository.PullIntegral | diskrepository/diskrepository.h:254-268 | pulls the object bytes of an integral as PullStep says, advancing the local offset modulo the capacity |
| DiskRepo.DiskRepository.PullString | diskrepository/diskrepository.h:270-289 | pulls a prefix and that many bytes as PullStep says; it fails when either the prefix or the body is missing |
| DiskRepo.DiskRepository.PushField | diskrepository/diskrepository.h:219-252 | the overload for the field's type behaves as PushStep and appends the field's encoding |
| DiskRepo.DiskRepository.PullField | diskrepository/diskrepository.h:254-289 | the overload for the field's type succeeds exactly when DecodeOne does, and returns its value and the bytes left |
| DiskRepo.DiskRepository.WriteRecord | diskrepository/diskrepository.h:103-112 | the fields are written one after another; this succeeds iff the record has a field and its whole encoding fits, and then appends it |
| DiskRepo.DiskRepository.Push | diskrepository/diskrepository.h:96-113 | succeeds iff the buffer is open, the record has a field and it fits; the stored bytes then grow by its encoding, otherwise nothing changes (a null buffer included) |
| DiskRepo.DiskRepository.ReadRecord | diskrepository/diskrepository.h:122-131 | the fields are read one after another; this succeeds iff DecodeAll accepts the bytes, and returns its record |
| DiskRepo.DiskRepository.Pull | diskrepository/diskrepository.h:115-132 | succeeds iff the buffer is open and a whole record is stored; it then returns the oldest record and drops its bytes, otherwise nothing changes |
| Chip8Decode.Table | Chip8Emulator/Chip8.cs:98-134 | the opcode table has its 34 rows |
| Chip8Decode.FirstMatch | Chip8Emulator/Chip8.cs:263 | Array.Find: the first row at or after `from` whose masked opcode equals its pattern, or none if no row matches |
| Chip8Decode.Decode | Chip8Emulator/Chip8.cs:261-267 | a matching table row, and it is none exactly when no row matches |
| Chip8Decode.FirstMatchIs | Chip8Emulator/Chip8.cs:263 | the search returns k when row k is the first matching row |
| Chip8Decode.UndefinedEightXY8 | Chip8Emulator/Chip8.cs:98-134 | an 8XY8 opcode matches no row |
| Chip8Decode.UndefinedZeroNnn | Chip8Emulator/Chip8.cs:98-134 | a 0NNN opcode other than 00E0 and 00EE matches no row |
| Chip8Decode.DecodeReturnCallAdd | Chip8Emulator/Chip8.cs:101-113 | 00EE decodes to RET, 2NNN to CALL and 8XY4 to ADD_VX_VY |
| Chip8Decode.DecodeAsWritten | Chip8Emulator/Chip8.cs:261-267 | as written, decode throws only when the row found is flagged undefined |
| Chip8Decode.UnknownOpcodePassesDecodeAsWritten | Chip8Emulator/Chip8.cs:64-85 | an opcode with no row gets the default row, whose `undefined` flag is false, so decode does not throw |
| Chip8Decode.RegisterOperands | Chip8Emulator/Chip8.cs:274-304 | X and Y are the second and third nibbles, so each is at most 15 |
| Chip8Decode.ValueOperands | Chip8Emulator/Chip8.cs:274-304 | N is the low nibble, NN the low byte and NNN the low 12 bits (at most 0xFFF) |
| Chip8Machine.CopyCount | Chip8Emulator/Chip8.cs:626-640 | the number of iterations of the Store/Load loop that complete before an index runs off either array |
| Chip8Machine.FetchSpec | Chip8Emulator/Chip8.cs:256-259 | the opcode's high byte is memory[PC] and its low byte memory[PC+1]; it fails when PC+1 is past the end |
| Chip8Machine.TableArity | Chip8Emulator/Chip8.cs:98-134 | every row carries the operands its routine's DecodeArgs reads |
| Chip8Core.Chip8.constructor | Chip8Emulator/Chip8.cs:136-146 | all memory, registers, stack, keys, timers, I and SP are zero, and PC is 0x200 |
| Chip8Core.Chip8.Clear | Chip8Emulator/Chip8.cs:326-330 | the step ClearSpec describes: PC moves to the next instruction |
| Chip8Core.Chip8.Return | Chip8Emulator/Chip8.cs:332-335 | the step ReturnSpec describes: PC := stack[--SP], with no advance; with SP = 0 the byte wraps to 255 and the read throws IndexOutOfRange |
| Chip8Core.Chip8.Jump | Chip8Emulator/Chip8.cs:337-341 | the step JumpSpec describes: PC := NNN |
| Chip8Core.Chip8.Call | Chip8Emulator/Chip8.cs:343-351 | the step CallSpec describes: push the address after the call and jump, or throw StackOverflow with every slot taken |
| Chip8Core.Chip8.JumpV0 | Chip8Emulator/Chip8.cs:466-470 | the step JumpV0Spec describes: PC := NNN + V0 |
| Chip8Core.Chip8.SkipEqualVxNn | Chip8Emulator/Chip8.cs:353-357 | the step SkipEqualVxNnSpec describes |
| Chip8Core.Chip8.SkipNotEqualVxNn | Chip8Emulator/Chip8.cs:359-363 | the step SkipNotEqualVxNnSpec describes |
| Chip8Core.Chip8.SkipEqualVxVy | Chip8Emulator/Chip8.cs:365-369 | the step SkipEqualVxVySpec describes |
| Chip8Core.Chip8.SkipNotEqualVxVy | Chip8Emulator/Chip8.cs:453-457 | the step SkipNotEqualVxVySpec describes |
| Chip8Core.Chip8.SkipKeyPressed | Chip8Emulator/Chip8.cs:546-550 | the step SkipKeyPressedSpec describes |
| Chip8Core.Chip8.SkipKeyNotPressed | Chip8Emulator/Chip8.cs:552-556 | the step SkipKeyNotPressedSpec describes |
| Chip8Core.Chip8.LoadVxNn | Chip8Emulator/Chip8.cs:371-376 | the step LoadVxNnSpec describes: VX := NN |
| Chip8Core.Chip8.AddVxNn | Chip8Emulator/Chip8.cs:378-383 | the step AddVxNnSpec describes |
| Chip8Core.Chip8.LoadVxVy | Chip8Emulator/Chip8.cs:385-390 | the step LoadVxVySpec describes: VX := VY |
| Chip8Core.Chip8.OrVxVy | Chip8Emulator/Chip8.cs:392-397 | the step OrVxVySpec describes |
| Chip8Core.Chip8.AndVxVy | Chip8Emulator/Chip8.cs:399-404 | the step AndVxVySpec describes |
| Chip8Core.Chip8.XorVxVy | Chip8Emulator/Chip8.cs:406-411 | the step XorVxVySpec describes |
| Chip8Core.Chip8.AddVxVy | Chip8Emulator/Chip8.cs:413-419 | the step AddVxVySpec describes |
| Chip8Core.Chip8.SubtractBorrow | Chip8Emulator/Chip8.cs:421-427 | the step SubtractBorrowSpec describes |
| Chip8Core.Chip8.ShiftRight | Chip8Emulator/Chip8.cs:429-435 | the step ShiftRightSpec describes |
| Chip8Core.Chip8.SubtractNoBorrow | Chip8Emulator/Chip8.cs:437-443 | the step SubtractNoBorrowSpec describes |
| Chip8Core.Chip8.ShiftLeft | Chip8Emulator/Chip8.cs:445-451 | the step ShiftLeftSpec describes |
| Chip8Core.Chip8.LoadINnn | Chip8Emulator/Chip8.cs:459-464 | the step LoadINnnSpec describes: I := NNN |
| Chip8Core.Chip8.LoadVxDt | Chip8Emulator/Chip8.cs:558-563 | the step LoadVxDtSpec describes: VX := DT |
| Chip8Core.Chip8.LoadDtVx | Chip8Emulator/Chip8.cs:584-589 | the step LoadDtVxSpec describes: DT := VX |
| Chip8Core.Chip8.LoadStVx | Chip8Emulator/Chip8.cs:591-596 | the step LoadStVxSpec describes: ST := VX |
| Chip8Core.Chip8.AddIVx | Chip8Emulator/Chip8.cs:598-603 | the step AddIVxSpec describes: I := I + VX |
| Chip8Core.Chip8.LoadFont | Chip8Emulator/Chip8.cs:605-610 | the step LoadFontSpec describes |
| Chip8Core.Chip8.LoadBcd | Chip8Emulator/Chip8.cs:612-624 | the step LoadBcdSpec describes |
| Chip8Core.Chip8.StoreRegisters | Chip8Emulator/Chip8.cs:626-632 | the step StoreRegistersSpec describes, the copy loop included |
| Chip8Core.Chip8.LoadRegisters | Chip8Emulator/Chip8.cs:634-640 | the step LoadRegistersSpec describes, the copy loop included |
| Chip8Core.Chip8.Execute | Chip8Emulator/Chip8.cs:269-272 | runs the decoded row's routine with its operands, as the Execute function describes |
| Chip8Core.Chip8.Cycle | Chip8Emulator/Chip8.cs:233-238 | one fetch-decode-execute turn, as CycleSpec describes; an opcode with no row stops with UnknownOpcode |
| Chip8Core.Chip8.Dispatch | Chip8Emulator/Chip8.cs:235-236 | Decode then Execute of a fetched opcode: UnknownOpcode when no row matches, nothing changed for a routine left out of the model, otherwise the step of the row's routine |
| Chip8Core.Chip8.Tick | Chip8Emulator/Chip8.cs:241-251 | when a timer period has elapsed, DT and ST each count down by one unless already 0; nothing else changes |
| Chip8Core.Chip8.ClearAll | Chip8Emulator/Chip8.cs:189-199 | every array and register is zero and PC is 0x200 |
| Chip8Core.Chip8.LoadROM | Chip8Emulator/Chip8.cs:183-208 | the state LoadRomSpec describes: cleared, the font at 0 and the ROM at 0x200 |
| Chip8Core.Chip8.CopyFont | Chip8Emulator/Chip8.cs:201 | on cleared memory, the font glyphs land at address 0 and nothing else changes |
| Chip8Core.Chip8.CopyRom | Chip8Emulator/Chip8.cs:202 | on the reset machine, the ROM bytes land at 0x200 and up and nothing else changes |
| Chip8Laws.RegisterSkips | Chip8Emulator/Chip8.cs:353-369 | SE/SNE on NN or VY change only PC: +4 when their condition holds, +2 otherwise; of each pair exactly one skips |
| Chip8Laws.KeySkips | Chip8Emulator/Chip8.cs:546-556 | SKP/SKNP skip on key flag 1/0, and exactly one skips; a key number above 15 throws and changes nothing |
| Chip8Laws.StraightLineAdvancesTwo | Chip8Emulator/Chip8.cs:371-464 | every routine that neither jumps, calls, returns nor skips moves PC by exactly 2 when it completes |
| Chip8Laws.ArithmeticAdvancesTwo | Chip8Emulator/Chip8.cs:371-451 | whatever their operands, the register arithmetic routines move PC by exactly 2 when they complete |
| Chip8Laws.OthersAdvanceTwo | Chip8Emulator/Chip8.cs:459-640 | whatever their operands, the remaining straight-line routines move PC by exactly 2 when they complete |
| Chip8Laws.AddVxVyCarry | Chip8Emulator/Chip8.cs:413-419 | VX := (VX + VY) mod 256; carry = 1 iff VX + VY > 255; only VX, carry and PC change |
| Chip8Laws.SubtractCarry | Chip8Emulator/Chip8.cs:421-427 | VX := (VX − VY) mod 256; carry = 1 iff VX > VY |
| Chip8Laws.SubtractReversedCarry | Chip8Emulator/Chip8.cs:437-443 | VX := (VY − VX) mod 256; carry = 1 iff VX < VY |
| Chip8Laws.AddVxNnKeepsCarry | Chip8Emulator/Chip8.cs:378-383 | VX := (VX + NN) mod 256 and the carry flag is untouched |
| Chip8Laws.ShiftRightCarry | Chip8Emulator/Chip8.cs:429-435 | carry := VX's low bit and VX := VX / 2 |
| Chip8Laws.ShiftLeftCarry | Chip8Emulator/Chip8.cs:445-451 | carry := VX & 0x80 (0 or 0x80) and VX := 2·VX mod 256 |
| Chip8Laws.ShiftsIgnoreVy | Chip8Emulator/Chip8.cs:429-451 | two shift opcodes that differ only in the Y nibble run identically |
| Chip8Laws.CallThenReturn | Chip8Emulator/Chip8.cs:332-351 | CALL pushes PC+2, increments SP and jumps; RET then resumes at the instruction after the CALL with SP restored |
| Chip8Laws.StackLimits | Chip8Emulator/Chip8.cs:332-351 | CALL with all 16 slots taken throws StackOverflow and changes nothing; RET on an empty stack throws |
| Chip8Laws.SixteenthCallThrowsAsWritten | Chip8Emulator/Chip8.cs:343-351 | as written, CALL agrees with CallSpec below 15 nested calls, but throws on the 16th although its slot is free |
| Chip8Laws.BcdDigits | Chip8Emulator/Chip8.cs:612-624 | memory[I..I+2] := the digits h, t, o of VX, each ≤ 9, with 100h + 10t + o = VX; nothing else changes; it fails iff I+2 is past memory |
| Chip8Laws.StoreCopiesRegisters | Chip8Emulator/Chip8.cs:626-632 | memory[I+j] := Vj for j ≤ X and nothing else changes; it completes iff both ranges fit |
| Chip8Laws.LoadCopiesMemory | Chip8Emulator/Chip8.cs:634-640 | Vj := memory[I+j] for j ≤ X and nothing else changes; it completes iff both ranges fit |
| Chip8Laws.StoreThenLoad | Chip8Emulator/Chip8.cs:626-640 | storing V0..VX and loading them back changes only PC |
| Chip8Laws.LoadThenStore | Chip8Emulator/Chip8.cs:626-640 | loading memory[I..I+X] and storing it back changes only PC |
| Chip8Laws.FontGlyphAddress | Chip8Emulator/Chip8.cs:605-610 | I := 5·VX, the start of the 5-byte glyph of digit VX inside the font |
| Chip8Laws.TicksCountDown | Chip8Emulator/Chip8.cs:244-248 | after n timer periods each timer is max(0, start − n) and nothing else changes |
| Chip8Laws.LoadRomLayout | Chip8Emulator/Chip8.cs:183-208 | the font is at 0 and the ROM at 0x200, every other byte and field is zero, and PC is 0x200; a ROM longer than 0xE00 bytes throws |
| Chip8Laws.UnknownOpcodeStops | Chip8Emulator/Chip8.cs:261-267 | in the corrected decode, an 8XY8 opcode stops the machine with UnknownOpcode |
| BinSearch.Cell | leetcode/core/binsearch.c:15-22 | the element compared at an index inside the array is the array's value there |
| BinSearch.SearchAsWritten | leetcode/core/binsearch.c:3-33 | the loop as written, over [0, size] inclusive: -1 or an index whose cell holds the value |
| BinSearch.OnePastTheEndAsWritten | leetcode/core/binsearch.c:6-13 | searching [1] for 2 reaches index 1, past the end, and reports it when the memory there holds 2 |
| BinSearch.Search | leetcode/core/binsearch.c:3-33 | on a sorted array: -1 exactly when the value is absent, otherwise an index holding it |
| SearchInsert.SearchInsert | leetcode/problems/35.c:4-30 | on a sorted non-empty array: an index holding the target when it is present, otherwise the insertion point in [0, n] |
| SearchInsert.InsertionPointUnique | leetcode/problems/35.c:29 | the insertion point is unique |
| SearchInsert.KnownInsertionPoints | leetcode/problems/35.c:40-62 | the tests' answers 1, 4 and 0 are the insertion points |
| Sqrt.StartsAboveRoot | leetcode/problems/69.c:7 | `end := x` starts at or above the floor of the square root |
| Sqrt.MySqrt | leetcode/problems/69.c:4-27 | for x ≥ 1: r ≥ 1 and r² ≤ x < (r+1)²; 0 when x ≤ 0 |
| Sqrt.FloorRootUnique | leetcode/problems/69.c:9-23 | the floor root is unique, so MySqrt's result is determined |
| Sqrt.KnownRoots | leetcode/problems/69.c:29-51 | for the tests' inputs 4, 8, 1 and 5, any result MySqrt's contract allows is the expected 2, 2, 1 and 2 |
| WindowSums.SumMonotone | leetcode/core/sliding_window.c:52-55 | over non-negative elements, a window's sum is at least that of any window inside it |
| WindowSums.Slide | leetcode/core/sliding_window.c:22 | sliding a window by one adds the new element and drops the old |
| WindowSums.MaxWindowSumUnique | leetcode/core/sliding_window.c:13-29 | the largest window sum is unique |
| SlidingWindow.MaxSumOfSizeK | leetcode/core/sliding_window.c:6-30 | -1 when size < k, otherwise the largest sum of a length-k window, attained by some window |
| SlidingWindow.KnownMaxSums | leetcode/tests/sliding_window.c:6-18 | 700 and 39 are the largest window sums of the tests |
| SlidingWindow.SmallestSubarraySumAbove | leetcode/core/sliding_window.c:32-73 | 0 or the length of a window whose sum exceeds x; over non-negative elements, 0 iff no window exceeds x, and otherwise no window that exceeds x is shorter |
| SlidingWindow.GivenSumAsWritten | leetcode/core/sliding_window.c:75-105 | for any target, the search as written reports (-1,-1) or a non-empty window summing to the target, unless it reads past the array |
| SlidingWindow.SumPrefixes | leetcode/core/sliding_window.c:75-105 | a window's sum is the difference of the prefix sums at its ends, so the search's running sum stays meaningful when `left` passes `right` |
| SlidingWindow.GivenSumReadsPastEndAsWritten | leetcode/core/sliding_window.c:85-88 | looking for 5 in [1] runs the advance loop to index 1, past the end |
| SlidingWindow.GivenSumRetreatsPastEndAsWritten | leetcode/core/sliding_window.c:99-102 | looking for -5 in [1] runs the retreat loop to index 1, past the end |
| SlidingWindow.GivenSumRetreatsPastRightAsWritten | leetcode/core/sliding_window.c:83-104 | looking for -1 in [1, 0], the retreat loop brings the sum to 0 with `left` past `right`, and the search reports (-1,-1) |
| SlidingWindow.GivenSumMissesLastWindowAsWritten | leetcode/core/sliding_window.c:83-104 | looking for 2 in [1, 2] misses the window [1, 2) that the retreat loop completes |
| SlidingWindow.GivenSum | leetcode/core/sliding_window.c:75-105 | for any target, with the advance and retreat loops bounded by the array's end: what the search as written reports wherever it stays inside the array, and (-1,-1) where it would read past; always (-1,-1) or a non-empty window summing to the target |
| SlidingWindow.CountDistinct | leetcode/core/sliding_window.c:117-129 | the number of distinct characters of the string |
| SlidingWindow.ShrinkWindow | leetcode/core/sliding_window.c:147-151 | dropping repeated characters from the left keeps the window covering, and its first character then occurs once |
| SlidingWindow.CountAndShrink | leetcode/core/sliding_window.c:139-152 | counts the new character and, once all characters are seen, shrinks to a covering window whose first character is unique |
| SlidingWindow.UpdateBest | leetcode/core/sliding_window.c:153-159 | a covering window shorter than the best so far replaces it, so the best stays the shortest cover among windows ending so far |
| SlidingWindow.ScanStep | leetcode/core/sliding_window.c:137-161 | one turn of the second loop keeps the count table, the prefix's distinct characters and the shortest-cover claim for windows ending at the new index |
| SlidingWindow.SmallestWindowWithAllCharacters | leetcode/core/sliding_window.c:107-162 | (0,0) for length ≤ 1; otherwise a half-open window holding every distinct character, and no covering window is shorter |
| MaxAverage.FindMaxAverageSum | leetcode/problems/643.c:4-30 | 0 when the array is shorter than k, otherwise the largest sum of a length-k window (the dividend of the average) |
| MaxAverage.KnownMaxAverageSums | leetcode/problems/643.c:32-46 | 51 (average 12.75 for k = 4) and 5 are the tests' largest window sums |
| Dfs.ReachStep | leetcode/core/dfs.c:16-22 | an edge followed by a path is a path |
| Dfs.GrownUnvisited | leetcode/core/dfs.c:14 | flags only go from 0 to 1, so the number of unvisited nodes never grows and drops when a node is marked |
| Dfs.DfsRecursive | leetcode/core/dfs.c:5-23 | on a visited node nothing changes; otherwise the node is printed first, every node it marks is printed exactly once and is reachable from it, and the successors of every node it marks end up marked |
| Dfs.VisitSuccessors | leetcode/core/dfs.c:16-22 | visiting each successor in increasing order keeps the printing and closure facts |
| Dfs.MarksExactlyReachable | leetcode/core/dfs.c:7-22 | from no visited node, dfs_recursive marks exactly the nodes reachable from where it starts |
| Dfs.PathMarked | leetcode/core/dfs.c:16-22 | along a path from a marked node through a closed marking, every node is marked |
| Dfs.Dfs | leetcode/core/dfs.c:25-31 | afterwards every node is visited, and each node not visited before is printed exactly once |
| Dfs.FirstTestAllReachable | leetcode/tests/dfs.c:5-17 | in the first test's directed graph every node is reachable from node 0 |
| Dfs.SecondTestClosed | leetcode/tests/dfs.c:19-31 | in the second test no edge leaves {0, 1, 2} |
| Dfs.SecondTestComponents | leetcode/tests/dfs.c:19-31 | in the second test node 0 reaches 2 but neither 3 nor 4 |
| BinaryTrees.Height | leetcode/problems/104.c:20-56 | the number of levels: 0 exactly for the empty tree and at most the number of nodes |
| InorderTraversal.InorderInto | leetcode/problems/94.c:22-33 | writes the inorder values (left, node, right) from the running size on and advances it by one per node; nothing else changes |
| InorderTraversal.Traverse | leetcode/problems/94.c:35-45 | for at most 100 nodes, a copy of exactly the inorder sequence, with size = number of nodes |
| InorderTraversal.KnownInorders | leetcode/problems/94.c:47-67 | [1, 3, 2], the empty tree and a lone node give the tests' answers |
| InorderTraversal.KnownNineNodeInorder | leetcode/problems/94.c:69-109 | the nine-node tree reads [4, 2, 6, 5, 7, 1, 3, 9, 8] |
| SameTree.Insert | leetcode/problems/100.c:20-37 | a new leaf for the empty tree, otherwise the same root |
| SameTree.InsertValues | leetcode/problems/100.c:20-37 | insertion adds exactly the one value and one node |
| SameTree.InsertKeepsOrdered | leetcode/problems/100.c:27-34 | values ≥ a node go left and smaller ones right, throughout the tree |
| SameTree.Build | leetcode/problems/100.c:76-112 | the tree built by inserting n values has n nodes |
| SameTree.BuildOrdered | leetcode/problems/100.c:76-112 | every tree the tests build by insertion is ordered |
| SameTree.IsSameTree | leetcode/problems/100.c:39-74 | 1 exactly when the two trees are equal |
| SameTree.SameTreeReflexiveSymmetric | leetcode/problems/100.c:39-69 | the comparison is reflexive and symmetric |
| SameTree.KnownSameTrees | leetcode/problems/100.c:76-87 | the same insert sequence twice gives the same tree |
| SameTree.KnownDifferentTrees | leetcode/problems/100.c:89-99 | inserting 1, 2 and 1, 0, 2 gives different trees |
| SameTree.KnownDifferentOrders | leetcode/problems/100.c:101-112 | inserting 1, 2, 1 and 1, 1, 2 gives different trees |
| SymmetricTree.MirrorInvolution | leetcode/problems/101.c:20-50 | mirroring twice gives the tree back |
| SymmetricTree.IsMirror | leetcode/problems/101.c:20-50 | 1 exactly when p is the mirror image of q |
| SymmetricTree.MirrorSymmetric | leetcode/problems/101.c:22-44 | dfs(p, q) == dfs(q, p) |
| SymmetricTree.IsSymmetric | leetcode/problems/101.c:52-56 | for a non-null root: 1 exactly when the tree is its own mirror image |
| SymmetricTree.LoneRootSymmetric | leetcode/problems/101.c:52-56 | a lone root is symmetric |
| SymmetricTree.KnownSymmetry | leetcode/problems/101.c:58-97 | the mirrored test tree is symmetric, the same-side one is not |
| MaxDepth.Labelled | leetcode/problems/104.c:43-50 | a queued child is its subtree with `val` overwritten by its depth |
| MaxDepth.Children | leetcode/problems/104.c:40-52 | the non-null children, left first, each labelled parent + 1 |
| MaxDepth.DequeueKeepsFrontier | leetcode/problems/104.c:34-53 | dequeuing the front and queueing its children keeps the breadth-first invariant and removes exactly one node from the count still to queue |
| MaxDepth.Enqueue | leetcode/problems/104.c:42 | `queue[end++] = node` appends the node to the live part of the queue |
| MaxDepth.QueueChildren | leetcode/problems/104.c:37-52 | appends the node's labelled children and makes the last one queued `last` |
| MaxDepth.Drain | leetcode/problems/104.c:34-55 | when the queue empties, the last label is the tree's height and every node has been queued once |
| MaxDepth.MaxDepth | leetcode/problems/104.c:20-56 | 0 for NULL, otherwise the number of levels; exactly as many entries are queued as the tree has nodes |
| MaxDepth.KnownDepths | leetcode/problems/104.c:58-82 | the tests' trees have depth 3 and 2 |
| NearbyDuplicate.Slot | leetcode/problems/219.c:29 | `abs(value) % n` lies in [0, n) |
| NearbyDuplicate.LatestStep | leetcode/problems/219.c:39 | storing index i in its slot keeps every slot at -1 or the latest earlier index hashed there |
| NearbyDuplicate.ScanAsWritten | leetcode/problems/219.c:27-40 | the loop as written: a true answer always has two equal values at most k apart |
| NearbyDuplicate.ContainsNearbyDuplicateAsWritten | leetcode/problems/219.c:22-44 | the function as written computes ScanAsWritten, so a 1 always has a witness pair |
| NearbyDuplicate.CollisionMissesPairAsWritten | leetcode/problems/219.c:29-39 | in [1, 4, 1] with k = 2, 4 overwrites the slot of 1 and the pair is missed |
| NearbyDuplicate.NoCollisionExact | leetcode/problems/219.c:27-40 | where no two different values share a slot, the loop as written answers exactly the question |
| NearbyDuplicate.ContainsNearbyDuplicate | leetcode/problems/219.c:22-44 | keyed by the value: true exactly when two equal values lie at most k apart |
| NearbyDuplicate.KnownAnswersAsWritten | leetcode/problems/219.c:46-68 | the loop as written gives 1, 1 and 0 on the tests |
| NearbyDuplicate.KnownAnswers | leetcode/problems/219.c:46-68 | the tests' expected 1, 1 and 0 are the true answers |
| CountNodes.CountInto | leetcode/problems/222.c:22-33 | the count grows by exactly the tree's size, so it only increases |
| CountNodes.Count | leetcode/problems/222.c:35-40 | the number of nodes, 0 for NULL |
| CountNodes.KnownCounts | leetcode/problems/222.c:42-72 | the tests' trees have 6, 0 and 1 nodes |
| Harmonious.InsertAt | leetcode/problems/594.c:13 | one insertion step keeps a sorted prefix sorted and the elements the same |
| Harmonious.Sort | leetcode/problems/594.c:13 | ascending order and the same multiset of values |
| Harmonious.LongestHarmonious | leetcode/problems/594.c:15-32 | the two-index scan over sorted values returns the longest stretch whose max − min is exactly 1, or 0 when there is none |
| Harmonious.FindLHS | leetcode/problems/594.c:11-35 | nums is sorted in place as a permutation, and the result is the longest harmonious stretch of the sorted values |
| Harmonious.ExtendBefore | leetcode/problems/594.c:24-31 | moving r past a stretch no longer than the best keeps the best |
| Harmonious.RecordBefore | leetcode/problems/594.c:19-23 | recording the window l..r, the longest ending at r, keeps the best |
| Harmonious.LongestUnique | leetcode/problems/594.c:11-35 | the longest length is unique |
| Harmonious.NoPairGivesZero | leetcode/problems/594.c:15-16 | with no two values 1 apart (fewer than two values included) the answer is 0 |
| Harmonious.KnownLengths | leetcode/problems/594.c:43-53 | the tests' answers 2 and 4 |
| Harmonious.MoreKnownLengths | leetcode/problems/594.c:37-65 | the tests' answers 5, 0 and 4 (with negatives) |
| Harmonious.LongestKnownLength | leetcode/problems/594.c:67-71 | the test's answer 6 |
| NiceSubstring.IsNiceSubstring | leetcode/problems/1763.c:5-25 | true exactly when every character of s[b..e] has a character 32 codes above or below it in s[b..e] |
| NiceSubstring.TryStretch | leetcode/problems/1763.c:37-45 | trying one stretch keeps the longest-earliest invariant of the scan |
| NiceSubstring.NextStart | leetcode/problems/1763.c:33-47 | the scan moves to the next start with the invariant kept |
| NiceSubstring.LongestNice | leetcode/problems/1763.c:33-47 | the longest nice stretch, the earliest on ties (strict <), or (0, 0) when none is nice |
| NiceSubstring.LongestNiceSubstring | leetcode/problems/1763.c:27-52 | the longest-earliest answer, with '\0' written at begin + max_len and nothing else in the buffer changed |
| NiceSubstring.CutLeavesAnswer | leetcode/problems/1763.c:49-51 | the string the NUL leaves at the returned pointer is exactly the answer |
| NiceSubstring.LongestEarliestUnique | leetcode/problems/1763.c:33-47 | the answer is unique |
| NiceSubstring.NiceNeedsTwo | leetcode/problems/1763.c:15-24 | a single character is never nice |
| NiceSubstring.Unpaired | leetcode/problems/1763.c:15-24 | a character without a partner makes the stretch not nice |
| NiceSubstring.NotOnlyLetters | leetcode/problems/1763.c:15-24 | non-letters pair too: "@`" is nice |
| NiceSubstring.ShortKnownAnswers | leetcode/problems/1763.c:61-73 | "Bb" is its own answer and "c" has the empty answer |
| NiceSubstring.FirstKnownAnswer | leetcode/problems/1763.c:54-59 | in "YazaAay" the answer is "aAa" at index 3 |
| Parser.Occurrences | leetcode/parser/parser.c:33-43 | the non-overlapping count of the signature from index i on: 0 when fewer than 9 bytes remain, and at most the bytes left |
| Parser.NoMatchInside | leetcode/parser/parser.c:39 | no signature starts strictly inside a match, so skipping past a match loses none |
| Parser.SkipMatch | leetcode/parser/parser.c:37-40 | a match counts one and the scan resumes after it |
| Parser.ScanBound | leetcode/parser/parser.c:33 | the number of start positions: n − 8 when n ≥ 8, else 0 |
| Parser.ScanBoundAsWritten | leetcode/parser/parser.c:33 | the bound `num_read - sig_len + 1` in 64-bit size_t arithmetic |
| Parser.ScanBoundAgrees | leetcode/parser/parser.c:33 | for chunks of at least 8 bytes the written bound is the intended one |
| Parser.ShortChunkOverrunsAsWritten | leetcode/parser/parser.c:33 | for chunks shorter than 8 bytes the written bound wraps to above the 1024-byte buffer |
| Parser.CountInChunk | leetcode/parser/parser.c:33-43 | the loop counts exactly the non-overlapping matches in the chunk |
| Parser.Chunks | leetcode/parser/parser.c:27-44 | the reads are full 1023-byte chunks followed by one shorter chunk, which may be empty |
| Parser.ChunksCover | leetcode/parser/parser.c:27-44 | the chunks concatenate back to the file |
| Parser.CountInFile | leetcode/parser/parser.c:21-44 | the do-while total is the sum of the per-chunk counts |
| Parser.OccurrencesSplitFrom | leetcode/parser/parser.c:30-44 | counting the halves separately never exceeds counting the whole |
| Parser.ChunkTotalAtMost | leetcode/parser/parser.c:27-44 | the chunked total is at most the count over the whole file |
| Parser.StraddlingMatchMissed | leetcode/parser/parser.c:30-44 | a match split across two chunks ("void" and " test") is not counted |
| Parser.Decimal | leetcode/parser/parser.c:57-59 | `%d` of a non-negative count: digits only, and no leading zero |
| Parser.DecimalRoundTrip | leetcode/parser/parser.c:57-59 | reading the digits back gives the number |
| Parser.Numbers | leetcode/parser/parser.c:53-60 | the fields 1..count in order |
| Parser.FormatCount | leetcode/parser/parser.c:53-60 | the printed text is the fields 1..count joined by ';' |
| Parser.SplitJoin | leetcode/parser/parser.c:53-60 | splitting the joined fields on ';' gives them back |
| Parser.OutputFields | leetcode/parser/parser.c:53-60 | the output splits into exactly count fields, field k being k+1, with no trailing separator |
| Parser.Run | leetcode/parser/parser.c:7-68 | no file name: usage and 0; open or close failure: nothing printed and -1; otherwise 0 and the fields 1..count of the chunked total |
| Parser.KnownOutputs | leetcode/parser/parser.c:53-60 | count 0 prints nothing, 3 prints "1;2;3" |

## Left out

- Direct3D 12, DXGI and DXC calls: device, queue, swap-chain, shader, pipeline and view creation are not modelled. A device query (heap start, handle increment) or a fence's completed value is passed in as a parameter.
- FrameDriver.VidDriver.EndFrame: the 64-bit `frameNumber` is assumed not to wrap.
- FrameDriver.VidDriver.EndFrame: it waits for the fence to reach the frame just finished, because that is what the code does. It does not wait for frameNumber − N.
- FrameDriver: GPU memory contents and `Map`/`memcpy` are modelled only as the bytes a staging buffer holds.
- DiskRepo: `open`, `close`, `flush`, `refill`, `tellDataSize` and the backup-file helpers are system calls and are not modelled.
  - `DiskRepo.DiskRepository.Open` models only the success path of the mapping.
- DiskRepo: the double memory mapping is modelled as indexing modulo the capacity, which is what it achieves.
- DiskRepo: integral fields are unsigned values of 1, 2, 4 or 8 bytes, stored little-endian. Signed values are their two's-complement object bytes.
- Chip8: `Draw_VX_VY_N`, `ClearScreen`, `Random_VX_NN` and `Load_VX_K` are not modelled. They do bitmap I/O, randomness and a key busy-wait.
  - `Chip8Core.Chip8.Cycle` reports these routines as not run and leaves the state unchanged.
- Chip8: the locks, the Stopwatch timing of `Loop` and the UI key handlers are not modelled.
  - Whether a 1/60 s period has elapsed is a parameter of `Chip8Core.Chip8.Tick`.
- Chip8Core.Chip8.Clear: only the PC advance is modelled; the screen is not.
- Chip8: an exception is returned as a fault value instead of being thrown. The state at the throw is kept in the model.
- BinSearch: elements are integers and the comparator is their order.
  - The byte arithmetic on `type_size` is not modelled.
  - The `a - b` comparator's overflow is not modelled.
- SearchInsert.SearchInsert: requires a non-empty array, since with 0 elements the source reads `nums[0]`.
- SlidingWindow.SmallestSubarraySumAbove: requires x ≥ 0, because with a negative x the source reads past the array.
  - Its "smallest" half is proved only for non-negative elements.
- SlidingWindow.SmallestWindowWithAllCharacters: characters are limited to codes below 128, where a signed `char` indexes the tables safely.
- SlidingWindow and MaxAverage: 32-bit `int` overflow of the sums is not modelled.
- MaxAverage.FindMaxAverageSum: returns the integer `max_sum`. The final `(double)max_sum / k` is floating point and is not modelled.
- Harmonious.Sort: `qsort` is modelled by an insertion sort with the same contract (sorted and the same multiset).
  - The comparator `a - b` is taken as integer order, so its overflow is not modelled.
  - `fmax` is taken as integer maximum.
- Harmonious: the tests are stated on their values after sorting.
- NearbyDuplicate: `abs(INT_MIN)` overflow is not modelled.
- NearbyDuplicate: `main`'s case 3 runs test2, so the source never runs its third test. The lemmas state all three expected answers.
- Trees (94, 100, 101, 104, 222): trees are immutable values, so pointer identity and sharing are not modelled.
  - SameTree.Insert returns the updated tree instead of linking the new leaf in place.
- MaxDepth.MaxDepth: the queue holds copies of the subtrees with their root relabelled by depth. The in-place `val` writes on the original nodes are not modelled.
  - The tree must have at most 10000 nodes, the static queue's capacity.
- InorderTraversal.Traverse: requires at most 100 nodes, the size of the temporary buffer.
  - The running size starts at 0, as every caller sets it.
- Dfs: the printed nodes are a returned sequence.
  - The order is pinned only to "the start node first, each node once".
- NiceSubstring: characters are limited to codes 32..127, the range in which `ascii[c - 32]` and a signed `char` stay in bounds.
- NiceSubstring.LongestNiceSubstring: takes a writable NUL-terminated array. The tests pass string literals, which may not be written to.
  - It returns the start index and the length instead of a pointer.
- DiskRepo.DiskRepository.Pull: a failed pull's partial writes to the caller's out-arguments are not modelled. Each field that succeeds is written before the record's outcome is known; the model leaves `values` unconstrained when ok is false.
- SlidingWindow.GivenSum: the source's second defect is recorded but not corrected. After the retreat loop completes a window with `right` at the end, the outer loop stops before testing it (SlidingWindow.GivenSumMissesLastWindowAsWritten). GivenSum keeps that behaviour, and no completeness property ("(-1,-1) only when no window sums to the target") is stated.
- Parser: the file is the byte sequence being read.
  - Open and close results are parameters.
  - The messages to stderr are not modelled.
  - `size_t` is taken to be 64 bits.
- Parser.CountInFile: uses the corrected scan bound (see Findings).
- All leetcode files: the `main` argument dispatch, `printf` and `malloc`/`free` are not modelled.

## Findings

| source | as written | input that shows it | evidently intended | confidence | as-written member | corrected member |
|---|---|---|---|---|---|---|
| diskrepository/diskrepository.h:107 | `push` folds `pushImpl` over the fields with the comma operator, and `ok` is the last field's result. The same holds for `pull` (line 126). | A 4096-byte ring holding 4092 bytes: push (uint64, uint8) stores the uint8, reports success, and commits 1 of the record's 9 bytes. Pull (uint64, uint8) on a ring holding 1 byte reports success. | A record is committed or consumed only when every field succeeds | not executed | DiskRepo.CommaFoldCommitsPartialRecords | DiskRepo.DiskRepository.Push |
| Chip8Emulator/Chip8.cs:264 | The unknown-opcode throw tests `instr.Undefined`. But `Array.Find` returns `default(Instruction)` when nothing matches, and its `undefined` field is false. | Opcode 0x8008 (8XY8) passes Decode and reaches Execute with a null routine | An unknown opcode stops the machine with an unknown-opcode error | not executed | Chip8Decode.UnknownOpcodePassesDecodeAsWritten | Chip8Laws.UnknownOpcodeStops |
| Chip8Emulator/Chip8.cs:345-347 | CALL checks `SP >= kStackSize` after the push | Sixteen nested calls: the 16th writes slot 15 and then throws StackOverflow | Throw only when no slot is free | not executed | Chip8Laws.SixteenthCallThrowsAsWritten | Chip8Core.Chip8.Call |
| leetcode/core/binsearch.c:6 | `end` starts at `array + size`, one past the last element, and the loop runs while `begin <= end` | Searching {1} for 2 compares `array[1]`, as in the test for a larger value in a size-1 array | Search only indices 0..size-1 | not executed | BinSearch.OnePastTheEndAsWritten | BinSearch.Search |
| leetcode/core/sliding_window.c:85-88 | The advance loop `while (sum > 0) sum -= array[right++];` has no bound on `right` | Looking for 5 in {1} reads `array[1]` | Stop the advance at the end of the array | not executed | SlidingWindow.GivenSumReadsPastEndAsWritten | SlidingWindow.GivenSum |
| leetcode/core/sliding_window.c:99-102 | The retreat loop `while (sum < 0) sum += array[left++];` has no bound on `left`, and a negative target starts it with `left == right` | Looking for -5 in {1} reads `array[1]` | Stop the retreat at the end of the array | not executed | SlidingWindow.GivenSumRetreatsPastEndAsWritten | SlidingWindow.GivenSum |
| leetcode/problems/219.c:29 | One table slot per `abs(value) % numsSize`, and two different values in one slot overwrite each other | {1, 4, 1} with k = 2 returns 0, although the two 1s are 2 apart | Key the table by the value | not executed | NearbyDuplicate.CollisionMissesPairAsWritten | NearbyDuplicate.ContainsNearbyDuplicate |
| leetcode/parser/parser.c:33 | `num_read - sig_len + 1` mixes `size_t` and `int`, so it wraps when fewer than 8 bytes were read | An empty file, or one whose size is a multiple of 1023: the last read returns 0 bytes and the bound becomes 2^64 − 8, so the loop reads past the 1024-byte buffer | No start positions when the chunk is shorter than the signature | not executed | Parser.ShortChunkOverrunsAsWritten | Parser.CountInChunk |
