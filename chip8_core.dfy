/**
 * The Chip8 class of Chip8Emulator/Chip8.cs: its arrays and registers
 * updated in place by one method per instruction routine, the
 * fetch-decode-execute turn of the interpreter loop, the timer countdown
 * and LoadROM.  Each method is proved to leave the snapshot its
 * Chip8Machine function describes, and returns the exception the C# code
 * would throw instead of throwing it.
 */
module Chip8Core {
  import opened Results
  import opened Chip8Decode
  import opened Chip8Machine

  class Chip8 {
    const memory: array<byte>
    const registers: array<byte>
    const stack: array<word>
    const keys: array<int>
    var carryFlag: byte
    var DT: byte
    var ST: byte
    var I: word
    var PC: word
    var SP: byte

    ghost predicate Valid()
      reads this
    {
      memory.Length == MemorySize && registers.Length == RegistersCount
      && stack.Length == StackSize && keys.Length == KeysCount && memory != registers
    }

    /** The snapshot of every field the routines read or write. */
    function State(): (m: Machine)
      reads this, memory, registers, stack, keys
      requires Valid()
      ensures Shaped(m)
    {
      Machine(memory[..], registers[..], stack[..], keys[..], carryFlag, DT, ST, I, PC, SP)
    }

    /** A new interpreter: everything zero (no font before LoadROM) and PC at 0x200. */
    constructor ()
      ensures Valid() && fresh(memory) && fresh(registers) && fresh(stack) && fresh(keys)
      ensures State() == Machine(seq(MemorySize, _ => 0), seq(RegistersCount, _ => 0),
                                 seq(StackSize, _ => 0), seq(KeysCount, _ => 0), 0, 0, 0, 0, ProgramStart, 0)
    {
      memory := new byte[MemorySize](_ => 0);
      registers := new byte[RegistersCount](_ => 0);
      stack := new word[StackSize](_ => 0);
      keys := new int[KeysCount](_ => 0);
      carryFlag, DT, ST, I, PC, SP := 0, 0, 0, 0, ProgramStart, 0;
    }

    // ---- control flow ----

    method Clear() returns (fault: Option<Fault>)
      requires Valid()
      modifies this
      ensures Valid() && Step(State(), fault) == ClearSpec(old(State()))
    {
      PC := AddWord(PC, 2);
      fault := None;
    }

    method Return() returns (fault: Option<Fault>)
      requires Valid()
      modifies this
      ensures Valid() && Step(State(), fault) == ReturnSpec(old(State()))
    {
      SP := AddByte(SP, -1);
      if SP as int >= StackSize {
        return Some(IndexOutOfRange);
      }
      PC := stack[SP];
      fault := None;
    }

    method Jump(nnn: word) returns (fault: Option<Fault>)
      requires Valid()
      modifies this
      ensures Valid() && Step(State(), fault) == JumpSpec(old(State()), nnn)
    {
      PC := nnn;
      fault := None;
    }

    /** CALL_NNN, with the stack check made before the push (see CallAsWritten). */
    method Call(nnn: word) returns (fault: Option<Fault>)
      requires Valid()
      modifies this, stack
      ensures Valid() && Step(State(), fault) == CallSpec(old(State()), nnn)
    {
      if SP as int >= StackSize {
        return Some(StackOverflow);
      }
      stack[SP] := AddWord(PC, 2);
      SP := SP + 1;
      PC := nnn;
      fault := None;
    }

    method JumpV0(nnn: word) returns (fault: Option<Fault>)
      requires Valid()
      modifies this
      ensures Valid() && Step(State(), fault) == JumpV0Spec(old(State()), nnn)
    {
      PC := AddWord(nnn, registers[0] as int);
      fault := None;
    }

    // ---- skips ----

    method SkipEqualVxNn(x: byte, nn: byte) returns (fault: Option<Fault>)
      requires Valid()
      modifies this
      ensures Valid() && Step(State(), fault) == SkipEqualVxNnSpec(old(State()), x, nn)
    {
      if x >= 16 {
        return Some(IndexOutOfRange);
      }
      PC := AddWord(PC, if registers[x] == nn then 4 else 2);
      fault := None;
    }

    method SkipNotEqualVxNn(x: byte, nn: byte) returns (fault: Option<Fault>)
      requires Valid()
      modifies this
      ensures Valid() && Step(State(), fault) == SkipNotEqualVxNnSpec(old(State()), x, nn)
    {
      if x >= 16 {
        return Some(IndexOutOfRange);
      }
      PC := AddWord(PC, if registers[x] != nn then 4 else 2);
      fault := None;
    }

    method SkipEqualVxVy(x: byte, y: byte) returns (fault: Option<Fault>)
      requires Valid()
      modifies this
      ensures Valid() && Step(State(), fault) == SkipEqualVxVySpec(old(State()), x, y)
    {
      if x >= 16 || y >= 16 {
        return Some(IndexOutOfRange);
      }
      PC := AddWord(PC, if registers[x] == registers[y] then 4 else 2);
      fault := None;
    }

    method SkipNotEqualVxVy(x: byte, y: byte) returns (fault: Option<Fault>)
      requires Valid()
      modifies this
      ensures Valid() && Step(State(), fault) == SkipNotEqualVxVySpec(old(State()), x, y)
    {
      if x >= 16 || y >= 16 {
        return Some(IndexOutOfRange);
      }
      PC := AddWord(PC, if registers[x] != registers[y] then 4 else 2);
      fault := None;
    }

    method SkipKeyPressed(x: byte) returns (fault: Option<Fault>)
      requires Valid()
      modifies this
      ensures Valid() && Step(State(), fault) == SkipKeyPressedSpec(old(State()), x)
    {
      if x >= 16 || registers[x] >= 16 {
        return Some(IndexOutOfRange);
      }
      PC := AddWord(PC, if keys[registers[x]] == 1 then 4 else 2);
      fault := None;
    }

    method SkipKeyNotPressed(x: byte) returns (fault: Option<Fault>)
      requires Valid()
      modifies this
      ensures Valid() && Step(State(), fault) == SkipKeyNotPressedSpec(old(State()), x)
    {
      if x >= 16 || registers[x] >= 16 {
        return Some(IndexOutOfRange);
      }
      PC := AddWord(PC, if keys[registers[x]] == 0 then 4 else 2);
      fault := None;
    }

    // ---- registers ----

    method LoadVxNn(x: byte, nn: byte) returns (fault: Option<Fault>)
      requires Valid()
      modifies this, registers
      ensures Valid() && Step(State(), fault) == LoadVxNnSpec(old(State()), x, nn)
    {
      if x >= 16 {
        return Some(IndexOutOfRange);
      }
      registers[x] := nn;
      PC := AddWord(PC, 2);
      fault := None;
    }

    method AddVxNn(x: byte, nn: byte) returns (fault: Option<Fault>)
      requires Valid()
      modifies this, registers
      ensures Valid() && Step(State(), fault) == AddVxNnSpec(old(State()), x, nn)
    {
      if x >= 16 {
        return Some(IndexOutOfRange);
      }
      registers[x] := AddByte(registers[x], nn as int);
      PC := AddWord(PC, 2);
      fault := None;
    }

    method LoadVxVy(x: byte, y: byte) returns (fault: Option<Fault>)
      requires Valid()
      modifies this, registers
      ensures Valid() && Step(State(), fault) == LoadVxVySpec(old(State()), x, y)
    {
      if x >= 16 || y >= 16 {
        return Some(IndexOutOfRange);
      }
      registers[x] := registers[y];
      PC := AddWord(PC, 2);
      fault := None;
    }

    method OrVxVy(x: byte, y: byte) returns (fault: Option<Fault>)
      requires Valid()
      modifies this, registers
      ensures Valid() && Step(State(), fault) == OrVxVySpec(old(State()), x, y)
    {
      if x >= 16 || y >= 16 {
        return Some(IndexOutOfRange);
      }
      registers[x] := Or8(registers[x], registers[y]);
      PC := AddWord(PC, 2);
      fault := None;
    }

    method AndVxVy(x: byte, y: byte) returns (fault: Option<Fault>)
      requires Valid()
      modifies this, registers
      ensures Valid() && Step(State(), fault) == AndVxVySpec(old(State()), x, y)
    {
      if x >= 16 || y >= 16 {
        return Some(IndexOutOfRange);
      }
      registers[x] := And8(registers[x], registers[y]);
      PC := AddWord(PC, 2);
      fault := None;
    }

    method XorVxVy(x: byte, y: byte) returns (fault: Option<Fault>)
      requires Valid()
      modifies this, registers
      ensures Valid() && Step(State(), fault) == XorVxVySpec(old(State()), x, y)
    {
      if x >= 16 || y >= 16 {
        return Some(IndexOutOfRange);
      }
      registers[x] := Xor8(registers[x], registers[y]);
      PC := AddWord(PC, 2);
      fault := None;
    }

    method AddVxVy(x: byte, y: byte) returns (fault: Option<Fault>)
      requires Valid()
      modifies this, registers
      ensures Valid() && Step(State(), fault) == AddVxVySpec(old(State()), x, y)
    {
      if x >= 16 || y >= 16 {
        return Some(IndexOutOfRange);
      }
      carryFlag := if 0xFF - registers[x] < registers[y] then 1 else 0;
      registers[x] := AddByte(registers[x], registers[y] as int);
      PC := AddWord(PC, 2);
      fault := None;
    }

    method SubtractBorrow(x: byte, y: byte) returns (fault: Option<Fault>)
      requires Valid()
      modifies this, registers
      ensures Valid() && Step(State(), fault) == SubtractBorrowSpec(old(State()), x, y)
    {
      if x >= 16 || y >= 16 {
        return Some(IndexOutOfRange);
      }
      carryFlag := if registers[x] > registers[y] then 1 else 0;
      registers[x] := AddByte(registers[x], -(registers[y] as int));
      PC := AddWord(PC, 2);
      fault := None;
    }

    method ShiftRight(x: byte) returns (fault: Option<Fault>)
      requires Valid()
      modifies this, registers
      ensures Valid() && Step(State(), fault) == ShiftRightSpec(old(State()), x)
    {
      if x >= 16 {
        return Some(IndexOutOfRange);
      }
      carryFlag := And8(registers[x], 1);
      registers[x] := registers[x] / 2;
      PC := AddWord(PC, 2);
      fault := None;
    }

    method SubtractNoBorrow(x: byte, y: byte) returns (fault: Option<Fault>)
      requires Valid()
      modifies this, registers
      ensures Valid() && Step(State(), fault) == SubtractNoBorrowSpec(old(State()), x, y)
    {
      if x >= 16 || y >= 16 {
        return Some(IndexOutOfRange);
      }
      carryFlag := if registers[x] < registers[y] then 1 else 0;
      registers[x] := AddByte(registers[y], -(registers[x] as int));
      PC := AddWord(PC, 2);
      fault := None;
    }

    method ShiftLeft(x: byte) returns (fault: Option<Fault>)
      requires Valid()
      modifies this, registers
      ensures Valid() && Step(State(), fault) == ShiftLeftSpec(old(State()), x)
    {
      if x >= 16 {
        return Some(IndexOutOfRange);
      }
      carryFlag := And8(registers[x], 0x80);
      registers[x] := AddByte(registers[x], registers[x] as int);
      PC := AddWord(PC, 2);
      fault := None;
    }

    // ---- timers and I ----

    method LoadINnn(nnn: word) returns (fault: Option<Fault>)
      requires Valid()
      modifies this
      ensures Valid() && Step(State(), fault) == LoadINnnSpec(old(State()), nnn)
    {
      I := nnn;
      PC := AddWord(PC, 2);
      fault := None;
    }

    method LoadVxDt(x: byte) returns (fault: Option<Fault>)
      requires Valid()
      modifies this, registers
      ensures Valid() && Step(State(), fault) == LoadVxDtSpec(old(State()), x)
    {
      if x >= 16 {
        return Some(IndexOutOfRange);
      }
      registers[x] := DT;
      PC := AddWord(PC, 2);
      fault := None;
    }

    method LoadDtVx(x: byte) returns (fault: Option<Fault>)
      requires Valid()
      modifies this
      ensures Valid() && Step(State(), fault) == LoadDtVxSpec(old(State()), x)
    {
      if x >= 16 {
        return Some(IndexOutOfRange);
      }
      DT := registers[x];
      PC := AddWord(PC, 2);
      fault := None;
    }

    method LoadStVx(x: byte) returns (fault: Option<Fault>)
      requires Valid()
      modifies this
      ensures Valid() && Step(State(), fault) == LoadStVxSpec(old(State()), x)
    {
      if x >= 16 {
        return Some(IndexOutOfRange);
      }
      ST := registers[x];
      PC := AddWord(PC, 2);
      fault := None;
    }

    method AddIVx(x: byte) returns (fault: Option<Fault>)
      requires Valid()
      modifies this
      ensures Valid() && Step(State(), fault) == AddIVxSpec(old(State()), x)
    {
      if x >= 16 {
        return Some(IndexOutOfRange);
      }
      I := AddWord(I, registers[x] as int);
      PC := AddWord(PC, 2);
      fault := None;
    }

    method LoadFont(x: byte) returns (fault: Option<Fault>)
      requires Valid()
      modifies this
      ensures Valid() && Step(State(), fault) == LoadFontSpec(old(State()), x)
    {
      if x >= 16 {
        return Some(IndexOutOfRange);
      }
      I := registers[x] as word * 5;
      PC := AddWord(PC, 2);
      fault := None;
    }

    // ---- memory ----

    method LoadBcd(x: byte) returns (fault: Option<Fault>)
      requires Valid()
      modifies this, memory
      ensures Valid() && Step(State(), fault) == LoadBcdSpec(old(State()), x)
    {
      if x >= 16 {
        return Some(IndexOutOfRange);
      }
      var (h, t, o) := Digits(registers[x]);
      if I as int >= MemorySize {
        return Some(IndexOutOfRange);
      }
      memory[I] := h;
      if I as int + 1 >= MemorySize {
        return Some(IndexOutOfRange);
      }
      memory[I as int + 1] := t;
      if I as int + 2 >= MemorySize {
        return Some(IndexOutOfRange);
      }
      memory[I as int + 2] := o;
      PC := AddWord(PC, 2);
      fault := None;
    }

    /** LD_[I]_VX: `for (i = 0; i <= VX; i++) memory[I + i] = registers[i]`. */
    method StoreRegisters(x: byte) returns (fault: Option<Fault>)
      requires Valid()
      modifies this, memory
      ensures Valid() && Step(State(), fault) == StoreRegistersSpec(old(State()), x)
    {
      ghost var m := State();
      var k := 0;
      while k <= x as int
        invariant 0 <= k <= x as int + 1 && k <= CopyCount(m, x)
        invariant State() == m.(memory := StoredMemory(m, k))
      {
        if k >= RegistersCount || I as int + k >= MemorySize {
          assert k == CopyCount(m, x);
          return Some(IndexOutOfRange);
        }
        memory[I as int + k] := registers[k];
        k := k + 1;
      }
      PC := AddWord(PC, 2);
      fault := None;
    }

    /** LD_VX_[I]: `for (i = 0; i <= VX; i++) registers[i] = memory[I + i]`. */
    method LoadRegisters(x: byte) returns (fault: Option<Fault>)
      requires Valid()
      modifies this, registers
      ensures Valid() && Step(State(), fault) == LoadRegistersSpec(old(State()), x)
    {
      ghost var m := State();
      var k := 0;
      while k <= x as int
        invariant 0 <= k <= x as int + 1 && k <= CopyCount(m, x)
        invariant State() == m.(registers := LoadedRegisters(m, k))
      {
        if k >= RegistersCount || I as int + k >= MemorySize {
          assert k == CopyCount(m, x);
          return Some(IndexOutOfRange);
        }
        registers[k] := memory[I as int + k];
        k := k + 1;
      }
      PC := AddWord(PC, 2);
      fault := None;
    }

    // ---- the interpreter loop ----

    /** `instr.Execute(this, opcode)`: DecodeArgs, then the routine of the row. */
    method Execute(e: Instruction, opcode: bv16) returns (fault: Option<Fault>)
      requires Valid() && Modelled(e.routine) && |e.args| >= Arity(e.routine)
      modifies this, memory, registers, stack
      ensures Valid() && Step(State(), fault) == Chip8Machine.Execute(old(State()), e, opcode)
    {
      match e.routine
      case Clear => fault := Clear();
      case Return => fault := Return();
      case JumpNnn => fault := Jump(WordArg(e.args[0], opcode));
      case CallNnn => fault := Call(WordArg(e.args[0], opcode));
      case SkipEqualVxNn => fault := SkipEqualVxNn(ByteArg(e.args[0], opcode), ByteArg(e.args[1], opcode));
      case SkipNotEqualVxNn => fault := SkipNotEqualVxNn(ByteArg(e.args[0], opcode), ByteArg(e.args[1], opcode));
      case SkipEqualVxVy => fault := SkipEqualVxVy(ByteArg(e.args[0], opcode), ByteArg(e.args[1], opcode));
      case LoadVxNn => fault := LoadVxNn(ByteArg(e.args[0], opcode), ByteArg(e.args[1], opcode));
      case AddVxNn => fault := AddVxNn(ByteArg(e.args[0], opcode), ByteArg(e.args[1], opcode));
      case LoadVxVy => fault := LoadVxVy(ByteArg(e.args[0], opcode), ByteArg(e.args[1], opcode));
      case OrVxVy => fault := OrVxVy(ByteArg(e.args[0], opcode), ByteArg(e.args[1], opcode));
      case AndVxVy => fault := AndVxVy(ByteArg(e.args[0], opcode), ByteArg(e.args[1], opcode));
      case XorVxVy => fault := XorVxVy(ByteArg(e.args[0], opcode), ByteArg(e.args[1], opcode));
      case AddVxVy => fault := AddVxVy(ByteArg(e.args[0], opcode), ByteArg(e.args[1], opcode));
      case SubtractBorrowVxVy => fault := SubtractBorrow(ByteArg(e.args[0], opcode), ByteArg(e.args[1], opcode));
      case ShiftRightVxVy => fault := ShiftRight(ByteArg(e.args[0], opcode));
      case SubtractNoBorrowVxVy => fault := SubtractNoBorrow(ByteArg(e.args[0], opcode), ByteArg(e.args[1], opcode));
      case ShiftLeftVxVy => fault := ShiftLeft(ByteArg(e.args[0], opcode));
      case SkipNotEqualVxVy => fault := SkipNotEqualVxVy(ByteArg(e.args[0], opcode), ByteArg(e.args[1], opcode));
      case LoadINnn => fault := LoadINnn(WordArg(e.args[0], opcode));
      case JumpV0Nnn => fault := JumpV0(WordArg(e.args[0], opcode));
      case SkipKeyPressedVx => fault := SkipKeyPressed(ByteArg(e.args[0], opcode));
      case SkipKeyNotPressedVx => fault := SkipKeyNotPressed(ByteArg(e.args[0], opcode));
      case LoadVxDt => fault := LoadVxDt(ByteArg(e.args[0], opcode));
      case LoadDtVx => fault := LoadDtVx(ByteArg(e.args[0], opcode));
      case LoadStVx => fault := LoadStVx(ByteArg(e.args[0], opcode));
      case AddIVx => fault := AddIVx(ByteArg(e.args[0], opcode));
      case LoadFontVx => fault := LoadFont(ByteArg(e.args[0], opcode));
      case LoadBcdVx => fault := LoadBcd(ByteArg(e.args[0], opcode));
      case StoreRegisters => fault := StoreRegisters(ByteArg(e.args[0], opcode));
      case LoadRegisters => fault := LoadRegisters(ByteArg(e.args[0], opcode));
    }

    /**
     * One turn of the interpreter loop: Fetch, Decode, Execute.  `ran` is
     * false, and nothing changes, when the decoded routine is one this
     * model leaves out.
     */
    method Cycle() returns (ran: bool, fault: Option<Fault>)
      requires Valid()
      modifies this, memory, registers, stack
      ensures Valid()
      ensures ran <==> CycleSpec(old(State())).Ran?
      ensures ran ==> Step(State(), fault) == CycleSpec(old(State())).step
      ensures !ran ==> State() == old(State()) && fault == None
    {
      if PC as int + 1 >= MemorySize {
        return true, Some(IndexOutOfRange);
      }
      var opcode := ((memory[PC] as bv16) << 8) | memory[PC as int + 1] as bv16;
      assert FetchSpec(State()) == Some(opcode);
      ran, fault := Dispatch(opcode);
    }

    /** Decode, then Execute the row found, as DispatchSpec describes. */
    method Dispatch(opcode: bv16) returns (ran: bool, fault: Option<Fault>)
      requires Valid()
      modifies this, memory, registers, stack
      ensures Valid()
      ensures ran <==> DispatchSpec(old(State()), opcode).Ran?
      ensures ran ==> Step(State(), fault) == DispatchSpec(old(State()), opcode).step
      ensures !ran ==> State() == old(State()) && fault == None
    {
      match Decode(opcode)
      case None =>
        ran, fault := true, Some(UnknownOpcode);
      case Some(e) =>
        if !Modelled(e.routine) {
          return false, None;
        }
        DecodedArity(opcode);
        fault := Execute(e, opcode);
        ran := true;
    }

    /** The timer step of the loop, taken when a 1/60 s period has elapsed since the last one. */
    method Tick(periodElapsed: bool)
      requires Valid()
      modifies this
      ensures Valid() && State() == if periodElapsed then TickSpec(old(State())) else old(State())
    {
      if periodElapsed {
        if DT > 0 {
          DT := DT - 1;
        }
        if ST > 0 {
          ST := ST - 1;
        }
      }
    }

    /** The clearing half of LoadROM: every array and register zero, PC at 0x200. */
    method ClearAll()
      requires Valid()
      modifies this, memory, registers, stack, keys
      ensures Valid() && State() == Reset().(memory := seq(MemorySize, _ => 0))
    {
      forall k | 0 <= k < memory.Length {
        memory[k] := 0;
      }
      forall k | 0 <= k < registers.Length {
        registers[k] := 0;
      }
      carryFlag, DT, ST, I, PC := 0, 0, 0, 0, ProgramStart;
      forall k | 0 <= k < stack.Length {
        stack[k] := 0;
      }
      SP := 0;
      forall k | 0 <= k < keys.Length {
        keys[k] := 0;
      }
    }

    /** LoadROM: clear every array and register, copy the font to 0 and the ROM to 0x200. */
    method LoadROM(data: seq<byte>) returns (fault: Option<Fault>)
      requires Valid()
      modifies this, memory, registers, stack, keys
      ensures Valid() && Step(State(), fault) == LoadRomSpec(data)
    {
      ClearAll();
      CopyFont();
      if |data| > MemorySize - ProgramStart as int {
        return Some(RomTooLarge);
      }
      CopyRom(data);
      fault := None;
    }

    /** The font copy of LoadROM: the glyphs go to address 0 of the cleared memory. */
    method CopyFont()
      requires Valid() && State() == Reset().(memory := seq(MemorySize, _ => 0))
      modifies memory
      ensures Valid() && State() == Reset()
    {
      forall k | 0 <= k < |Font| {
        memory[k] := Font[k];
      }
      assert memory[..] == Reset().memory;
    }

    /** The ROM copy of LoadROM: the bytes go to 0x200 and up. */
    method CopyRom(data: seq<byte>)
      requires Valid() && State() == Reset() && |data| <= MemorySize - ProgramStart as int
      modifies memory
      ensures Valid() && Step(State(), None) == LoadRomSpec(data)
    {
      forall k | 0 <= k < |data| {
        memory[ProgramStart as int + k] := data[k];
      }
      assert memory[..] == Reset().memory[..ProgramStart] + data + Reset().memory[ProgramStart as int + |data|..];
    }
  }
}
