/**
 * What the CHIP-8 routines promise, stated over the snapshot functions of
 * Chip8Machine: how PC moves, where carries go, the call stack, the memory
 * routines, the timers and the state LoadROM leaves.
 */
module Chip8Laws {
  import opened Results
  import opened Chip8Decode
  import opened Chip8Machine

  /** `s` completed and changed nothing but PC, which moved by 4 when `cond` and by 2 otherwise. */
  predicate SkippedOn(m: Machine, s: Step, cond: bool)
  {
    s.fault.None? && s.m == m.(pc := s.m.pc)
    && (cond ==> s.m.pc == AddWord(m.pc, 4)) && (!cond ==> s.m.pc == AddWord(m.pc, 2))
  }

  /** SE and SNE on a register skip exactly when the comparison holds, and never both. */
  lemma RegisterSkips(m: Machine, x: byte, y: byte, nn: byte)
    requires Shaped(m) && x < 16 && y < 16
    ensures SkippedOn(m, SkipEqualVxNnSpec(m, x, nn), m.registers[x] == nn)
    ensures SkippedOn(m, SkipNotEqualVxNnSpec(m, x, nn), m.registers[x] != nn)
    ensures SkippedOn(m, SkipEqualVxVySpec(m, x, y), m.registers[x] == m.registers[y])
    ensures SkippedOn(m, SkipNotEqualVxVySpec(m, x, y), m.registers[x] != m.registers[y])
    ensures SkipEqualVxNnSpec(m, x, nn).m.pc != SkipNotEqualVxNnSpec(m, x, nn).m.pc
    ensures SkipEqualVxVySpec(m, x, y).m.pc != SkipNotEqualVxVySpec(m, x, y).m.pc
  {
  }

  /**
   * SKP and SKNP on the key numbered VX: with the key flag 0 or 1 exactly one
   * of them skips; a key number past 15 throws and changes nothing.
   */
  lemma KeySkips(m: Machine, x: byte)
    requires Shaped(m) && x < 16
    ensures m.registers[x] < 16 ==> SkippedOn(m, SkipKeyPressedSpec(m, x), m.keys[m.registers[x]] == 1)
    ensures m.registers[x] < 16 ==> SkippedOn(m, SkipKeyNotPressedSpec(m, x), m.keys[m.registers[x]] == 0)
    ensures m.registers[x] < 16 && 0 <= m.keys[m.registers[x]] <= 1 ==>
      SkipKeyPressedSpec(m, x).m.pc != SkipKeyNotPressedSpec(m, x).m.pc
    ensures m.registers[x] >= 16 ==> SkipKeyPressedSpec(m, x) == Throw(m, IndexOutOfRange)
    ensures m.registers[x] >= 16 ==> SkipKeyNotPressedSpec(m, x) == Throw(m, IndexOutOfRange)
  {
  }

  /** The routines that neither jump, call, return nor skip. */
  predicate StraightLine(r: Routine)
  {
    !(r.Return? || r.JumpNnn? || r.CallNnn? || r.JumpV0Nnn? || r.SkipEqualVxNn? || r.SkipNotEqualVxNn?
      || r.SkipEqualVxVy? || r.SkipNotEqualVxVy? || r.SkipKeyPressedVx? || r.SkipKeyNotPressedVx?)
  }

  /** The register-to-register and register-immediate arithmetic routines. */
  predicate Arithmetic(r: Routine)
  {
    r.LoadVxNn? || r.AddVxNn? || r.LoadVxVy? || r.OrVxVy? || r.AndVxVy? || r.XorVxVy? || r.AddVxVy?
    || r.SubtractBorrowVxVy? || r.ShiftRightVxVy? || r.SubtractNoBorrowVxVy? || r.ShiftLeftVxVy?
  }

  /** `s`, when it completes, has moved PC to the next instruction. */
  predicate AdvancesTwo(m: Machine, s: Step)
  {
    s.fault.None? ==> s.m.pc == AddWord(m.pc, 2)
  }

  /** Every straight-line routine that completes moves PC to the next instruction. */
  lemma StraightLineAdvancesTwo(m: Machine, e: Instruction, opcode: bv16)
    requires Shaped(m) && Modelled(e.routine) && |e.args| >= Arity(e.routine)
    ensures StraightLine(e.routine) && Execute(m, e, opcode).fault.None? ==>
      Execute(m, e, opcode).m.pc == AddWord(m.pc, 2)
  {
    var x := if |e.args| >= 1 then ByteArg(e.args[0], opcode) else 0;
    var y := if |e.args| >= 2 then ByteArg(e.args[1], opcode) else 0;
    var nnn := if |e.args| >= 1 then WordArg(e.args[0], opcode) else 0;
    match e.routine
    case LoadVxNn | AddVxNn | LoadVxVy | OrVxVy | AndVxVy | XorVxVy | AddVxVy
      | SubtractBorrowVxVy | ShiftRightVxVy | SubtractNoBorrowVxVy | ShiftLeftVxVy =>
      ArithmeticAdvancesTwo(m, x, y);
    case Clear | LoadINnn | LoadVxDt | LoadDtVx | LoadStVx | AddIVx | LoadFontVx | LoadBcdVx
      | StoreRegisters | LoadRegisters =>
      OthersAdvanceTwo(m, x, nnn);
    case _ =>
  }

  /** The arithmetic routines, whatever their operands, move PC by 2 when they complete. */
  lemma ArithmeticAdvancesTwo(m: Machine, x: byte, y: byte)
    requires Shaped(m)
    ensures AdvancesTwo(m, LoadVxNnSpec(m, x, y)) && AdvancesTwo(m, AddVxNnSpec(m, x, y))
    ensures AdvancesTwo(m, LoadVxVySpec(m, x, y)) && AdvancesTwo(m, OrVxVySpec(m, x, y))
    ensures AdvancesTwo(m, AndVxVySpec(m, x, y)) && AdvancesTwo(m, XorVxVySpec(m, x, y))
    ensures AdvancesTwo(m, AddVxVySpec(m, x, y)) && AdvancesTwo(m, SubtractBorrowSpec(m, x, y))
    ensures AdvancesTwo(m, ShiftRightSpec(m, x)) && AdvancesTwo(m, SubtractNoBorrowSpec(m, x, y))
    ensures AdvancesTwo(m, ShiftLeftSpec(m, x))
  {
  }

  /** The other straight-line routines, whatever their operands, move PC by 2 when they complete. */
  lemma OthersAdvanceTwo(m: Machine, x: byte, nnn: word)
    requires Shaped(m)
    ensures AdvancesTwo(m, ClearSpec(m)) && AdvancesTwo(m, LoadINnnSpec(m, nnn))
    ensures AdvancesTwo(m, LoadVxDtSpec(m, x)) && AdvancesTwo(m, LoadDtVxSpec(m, x))
    ensures AdvancesTwo(m, LoadStVxSpec(m, x)) && AdvancesTwo(m, AddIVxSpec(m, x))
    ensures AdvancesTwo(m, LoadFontSpec(m, x)) && AdvancesTwo(m, LoadBcdSpec(m, x))
    ensures AdvancesTwo(m, StoreRegistersSpec(m, x)) && AdvancesTwo(m, LoadRegistersSpec(m, x))
  {
  }

  /** `s` completed and changed only VX, the carry flag and PC (moved by 2). */
  predicate OnlyVxAndCarry(m: Machine, s: Step, x: byte)
    requires Shaped(m) && x < 16
  {
    s.fault.None? && |s.m.registers| == RegistersCount
    && s.m == m.(registers := m.registers[x := s.m.registers[x]], carryFlag := s.m.carryFlag, pc := AddWord(m.pc, 2))
  }

  /** ADD_VX_VY: VX becomes the sum mod 256 and the carry flag is 1 exactly when the sum exceeds a byte. */
  lemma AddVxVyCarry(m: Machine, x: byte, y: byte)
    requires Shaped(m) && x < 16 && y < 16
    ensures var s := AddVxVySpec(m, x, y);
      OnlyVxAndCarry(m, s, x)
      && s.m.registers[x] as int == (m.registers[x] as int + m.registers[y] as int) % 256
      && (s.m.carryFlag == 1 <==> m.registers[x] as int + m.registers[y] as int > 255)
      && (s.m.carryFlag == 0 <==> m.registers[x] as int + m.registers[y] as int <= 255)
  {
  }

  /** SUB_VX_VY: VX becomes VX - VY mod 256 and the carry flag is 1 exactly when VX > VY. */
  lemma SubtractCarry(m: Machine, x: byte, y: byte)
    requires Shaped(m) && x < 16 && y < 16
    ensures var s := SubtractBorrowSpec(m, x, y);
      OnlyVxAndCarry(m, s, x)
      && s.m.registers[x] as int == (m.registers[x] as int - m.registers[y] as int) % 256
      && (s.m.carryFlag == 1 <==> m.registers[x] > m.registers[y])
      && (s.m.carryFlag == 0 <==> m.registers[x] <= m.registers[y])
  {
  }

  /** SUBN_VX_VY: VX becomes VY - VX mod 256 and the carry flag is 1 exactly when VX < VY. */
  lemma SubtractReversedCarry(m: Machine, x: byte, y: byte)
    requires Shaped(m) && x < 16 && y < 16
    ensures var s := SubtractNoBorrowSpec(m, x, y);
      OnlyVxAndCarry(m, s, x)
      && s.m.registers[x] as int == (m.registers[y] as int - m.registers[x] as int) % 256
      && (s.m.carryFlag == 1 <==> m.registers[x] < m.registers[y])
      && (s.m.carryFlag == 0 <==> m.registers[x] >= m.registers[y])
  {
  }

  /** ADD_VX_NN wraps VX mod 256 and leaves the carry flag as it was. */
  lemma AddVxNnKeepsCarry(m: Machine, x: byte, nn: byte)
    requires Shaped(m) && x < 16
    ensures var s := AddVxNnSpec(m, x, nn);
      OnlyVxAndCarry(m, s, x) && s.m.carryFlag == m.carryFlag
      && s.m.registers[x] as int == (m.registers[x] as int + nn as int) % 256
  {
  }

  /** SHR keeps VX's low bit in the carry flag and halves VX. */
  lemma ShiftRightCarry(m: Machine, x: byte)
    requires Shaped(m) && x < 16
    ensures var s := ShiftRightSpec(m, x);
      OnlyVxAndCarry(m, s, x)
      && s.m.carryFlag as int == m.registers[x] as int % 2
      && s.m.registers[x] as int == m.registers[x] as int / 2
  {
  }

  /** SHL keeps VX's high bit in place (0 or 0x80) in the carry flag and doubles VX mod 256. */
  lemma ShiftLeftCarry(m: Machine, x: byte)
    requires Shaped(m) && x < 16
    ensures var s := ShiftLeftSpec(m, x);
      OnlyVxAndCarry(m, s, x)
      && s.m.carryFlag == (if m.registers[x] as int >= 128 then 0x80 else 0)
      && s.m.registers[x] as int == m.registers[x] as int * 2 % 256
  {
  }

  /** The shifts read only X: two opcodes that differ in the Y nibble alone run the same. */
  lemma ShiftsIgnoreVy(m: Machine, e: Instruction, op1: bv16, op2: bv16)
    requires Shaped(m) && (e.routine == ShiftRightVxVy || e.routine == ShiftLeftVxVy)
    requires |e.args| >= 1 && e.args[0] == VX
    requires op1 & 0xFF0F == op2 & 0xFF0F
    ensures Execute(m, e, op1) == Execute(m, e, op2)
  {
    assert ByteArg(VX, op1) == ByteArg(VX, op2) by {
      assert op1 & 0x0F00 == (op1 & 0xFF0F) & 0x0F00;
      assert op2 & 0x0F00 == (op2 & 0xFF0F) & 0x0F00;
    }
  }

  /** CALL pushes the address after it and jumps; RET then resumes there with SP restored. */
  lemma CallThenReturn(m: Machine, nnn: word)
    requires Shaped(m) && (m.sp as int) < StackSize
    ensures var c := CallSpec(m, nnn);
      c.fault.None? && c.m.pc == nnn && c.m.sp == m.sp + 1 && c.m.stack[m.sp] == AddWord(m.pc, 2)
      && Shaped(c.m) && ReturnSpec(c.m) == Next(m.(pc := AddWord(m.pc, 2), stack := c.m.stack))
  {
  }

  /** CALL with every slot taken throws StackOverflow and changes nothing; RET on an empty stack throws. */
  lemma StackLimits(m: Machine, nnn: word)
    requires Shaped(m)
    ensures m.sp as int >= StackSize ==> CallSpec(m, nnn) == Throw(m, StackOverflow)
    ensures m.sp == 0 ==> ReturnSpec(m) == Throw(m.(sp := 255), IndexOutOfRange)
  {
  }

  /**
   * As written, CALL throws StackOverflow when its push has just filled the
   * sixteenth slot, so only fifteen nested calls can run; below that it
   * agrees with CallSpec.
   */
  lemma SixteenthCallThrowsAsWritten(m: Machine, nnn: word)
    requires Shaped(m)
    ensures (m.sp as int) < StackSize - 1 ==> CallAsWritten(m, nnn) == CallSpec(m, nnn)
    ensures m.sp as int == StackSize - 1 ==>
      CallAsWritten(m, nnn).fault == Some(StackOverflow) && CallSpec(m, nnn).fault.None?
  {
  }

  /** LD_B: the three digits of VX, each at most 9, at I..I+2; nothing else changes. */
  lemma BcdDigits(m: Machine, x: byte)
    requires Shaped(m) && x < 16
    ensures var s := LoadBcdSpec(m, x); var a := m.i as int;
      (s.fault.None? <==> a + 2 < MemorySize)
      && (s.fault.None? ==>
            s.m.memory[a] <= 9 && s.m.memory[a + 1] <= 9 && s.m.memory[a + 2] <= 9
            && s.m.memory[a] as int * 100 + s.m.memory[a + 1] as int * 10 + s.m.memory[a + 2] as int
               == m.registers[x] as int
            && |s.m.memory| == MemorySize
            && (forall k :: 0 <= k < MemorySize && !(a <= k < a + 3) ==> s.m.memory[k] == m.memory[k])
            && s.m == m.(memory := s.m.memory, pc := AddWord(m.pc, 2)))
  {
    var v := m.registers[x] as int;
    var n := v / 100;
    assert 0 <= n <= 2;
  }

  /** LD_[I]_VX: V0..VX land at I..I+X and nothing else changes; it completes exactly when both fit. */
  lemma StoreCopiesRegisters(m: Machine, x: byte)
    requires Shaped(m)
    ensures var s := StoreRegistersSpec(m, x); var a := m.i as int;
      (s.fault.None? <==> x < 16 && a + x as int < MemorySize)
      && (s.fault.None? ==>
            |s.m.memory| == MemorySize
            && (forall j :: 0 <= j <= x as int ==> s.m.memory[a + j] == m.registers[j])
            && (forall k :: 0 <= k < MemorySize && !(a <= k <= a + x as int) ==> s.m.memory[k] == m.memory[k])
            && s.m == m.(memory := s.m.memory, pc := AddWord(m.pc, 2)))
  {
  }

  /** LD_VX_[I]: memory I..I+X lands in V0..VX and nothing else changes; it completes exactly when both fit. */
  lemma LoadCopiesMemory(m: Machine, x: byte)
    requires Shaped(m)
    ensures var s := LoadRegistersSpec(m, x); var a := m.i as int;
      (s.fault.None? <==> x < 16 && a + x as int < MemorySize)
      && (s.fault.None? ==>
            |s.m.registers| == RegistersCount
            && (forall j :: 0 <= j <= x as int ==> s.m.registers[j] == m.memory[a + j])
            && (forall k :: x as int < k < RegistersCount ==> s.m.registers[k] == m.registers[k])
            && s.m == m.(registers := s.m.registers, pc := AddWord(m.pc, 2)))
  {
  }

  /** Storing V0..VX and loading them back leaves the registers as they were. */
  lemma StoreThenLoad(m: Machine, x: byte)
    requires Shaped(m) && x < 16 && m.i as int + x as int < MemorySize
    ensures var s := StoreRegistersSpec(m, x);
      Shaped(s.m) && LoadRegistersSpec(s.m, x) == Next(s.m.(pc := AddWord(s.m.pc, 2)))
  {
    var s := StoreRegistersSpec(m, x);
    StoreCopiesRegisters(m, x);
    LoadCopiesMemory(s.m, x);
    var l := LoadRegistersSpec(s.m, x);
    assert l.m.registers == m.registers;
  }

  /** Loading memory I..I+X into V0..VX and storing it back leaves memory as it was. */
  lemma LoadThenStore(m: Machine, x: byte)
    requires Shaped(m) && x < 16 && m.i as int + x as int < MemorySize
    ensures var l := LoadRegistersSpec(m, x);
      Shaped(l.m) && StoreRegistersSpec(l.m, x) == Next(l.m.(pc := AddWord(l.m.pc, 2)))
  {
    var l := LoadRegistersSpec(m, x);
    LoadCopiesMemory(m, x);
    StoreCopiesRegisters(l.m, x);
    var s := StoreRegistersSpec(l.m, x);
    assert s.m.memory == m.memory;
  }

  /** LD_F_VX points I at the 5-byte glyph of digit VX inside the font. */
  lemma FontGlyphAddress(m: Machine, x: byte)
    requires Shaped(m) && x < 16 && m.registers[x] < 16
    ensures var s := LoadFontSpec(m, x);
      s.fault.None? && s.m.i as int == 5 * m.registers[x] as int && s.m.i as int + 5 <= |Font|
  {
  }

  /** `n` timer periods. */
  function Ticks(m: Machine, n: nat): Machine
    decreases n
  {
    if n == 0 then m else Ticks(TickSpec(m), n - 1)
  }

  /** After n timer periods each timer has counted down to max(0, start - n); nothing else changes. */
  lemma {:induction false} TicksCountDown(m: Machine, n: nat)
    decreases n
    ensures Ticks(m, n).dt as int == if m.dt as int > n then m.dt as int - n else 0
    ensures Ticks(m, n).st as int == if m.st as int > n then m.st as int - n else 0
    ensures Ticks(m, n) == m.(dt := Ticks(m, n).dt, st := Ticks(m, n).st)
  {
    if n > 0 {
      TicksCountDown(TickSpec(m), n - 1);
    }
  }

  /**
   * After LoadROM the font is at 0, the ROM at 0x200 and every other byte,
   * register, stack slot, key and counter is zero, with PC at 0x200; a ROM
   * longer than 0xE00 bytes throws.
   */
  lemma LoadRomLayout(data: seq<byte>)
    ensures var s := LoadRomSpec(data);
      (s.fault.None? <==> |data| <= MemorySize - ProgramStart as int)
      && Shaped(s.m) && s.m.memory[..|Font|] == Font
      && (s.fault.None? ==> s.m.memory[ProgramStart..ProgramStart as int + |data|] == data)
      && (forall k :: |Font| <= k < ProgramStart as int ==> s.m.memory[k] == 0)
      && (s.fault.None? ==> forall k :: ProgramStart as int + |data| <= k < MemorySize ==> s.m.memory[k] == 0)
      && (forall k :: 0 <= k < RegistersCount ==> s.m.registers[k] == 0)
      && (forall k :: 0 <= k < StackSize ==> s.m.stack[k] == 0)
      && (forall k :: 0 <= k < KeysCount ==> s.m.keys[k] == 0)
      && s.m.pc == ProgramStart && s.m.sp == 0 && s.m.i == 0
      && s.m.dt == 0 && s.m.st == 0 && s.m.carryFlag == 0
  {
    assert |Font| == 80;
  }

  /** An opcode no row matches, such as 8XY8, stops the machine with UnknownOpcode. */
  lemma UnknownOpcodeStops(m: Machine)
    requires Shaped(m) && m.pc as int + 1 < MemorySize
    requires FetchSpec(m).value & 0xF00F == 0x8008
    ensures CycleSpec(m) == Ran(Throw(m, UnknownOpcode))
  {
    UndefinedEightXY8(FetchSpec(m).value);
  }
}
