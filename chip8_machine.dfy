/**
 * The state and the instruction routines of the CHIP-8 interpreter
 * (Chip8Emulator/Chip8.cs) as pure functions of a machine snapshot.  Each
 * routine yields the new snapshot and, when the C# code would throw, the
 * exception it throws; what the routine already changed before throwing is
 * part of the snapshot.  The class in Chip8Core is proved against these.
 */
module Chip8Machine {
  import opened Results
  import opened Chip8Decode

  const RegistersCount: nat := 0x10
  const MemorySize: nat := 0x1000
  const StackSize: nat := 0x10
  const KeysCount: nat := 0x10
  const ProgramStart: word := 0x200

  /** C#'s byte and ushort; arithmetic on them is done on int and truncated, as C# does. */
  newtype byte = x: int | 0 <= x < 0x100
  newtype word = x: int | 0 <= x < 0x10000

  function Or8(a: byte, b: byte): byte { ((a as bv8) | (b as bv8)) as byte }
  function And8(a: byte, b: byte): byte { ((a as bv8) & (b as bv8)) as byte }
  function Xor8(a: byte, b: byte): byte { ((a as bv8) ^ (b as bv8)) as byte }

  /** `(byte)(a + k)` */
  function AddByte(a: byte, k: int): byte { ((a as int + k) % 0x100) as byte }

  /** `(ushort)(a + k)` */
  function AddWord(a: word, k: int): word { ((a as int + k) % 0x10000) as word }

  /** The 5-byte glyphs of the hexadecimal digits 0..F, copied to address 0. */
  const Font: seq<byte> := [
    0xF0, 0x90, 0x90, 0x90, 0xF0,
    0x20, 0x60, 0x20, 0x20, 0x70,
    0xF0, 0x10, 0xF0, 0x80, 0xF0,
    0xF0, 0x10, 0xF0, 0x10, 0xF0,
    0x90, 0x90, 0xF0, 0x10, 0x10,
    0xF0, 0x80, 0xF0, 0x10, 0xF0,
    0xF0, 0x80, 0xF0, 0x90, 0xF0,
    0xF0, 0x10, 0x20, 0x40, 0x40,
    0xF0, 0x90, 0xF0, 0x90, 0xF0,
    0xF0, 0x90, 0xF0, 0x10, 0xF0,
    0xF0, 0x90, 0xF0, 0x90, 0x90,
    0xE0, 0x90, 0xE0, 0x90, 0xE0,
    0xF0, 0x80, 0x80, 0x80, 0xF0,
    0xE0, 0x90, 0x90, 0x90, 0xE0,
    0xF0, 0x80, 0xF0, 0x80, 0xF0,
    0xF0, 0x80, 0xF0, 0x80, 0x80
  ]

  /**
   * The interpreter's state: 4 KiB of memory, registers V0..VF, the return
   * stack, the key flags the UI thread sets (1 pressed, 0 released), the
   * carry flag (a field of its own, not VF), the timers DT and ST, the index
   * register I, PC and SP.
   */
  datatype Machine = Machine(
    memory: seq<byte>, registers: seq<byte>, stack: seq<word>, keys: seq<int>,
    carryFlag: byte, dt: byte, st: byte, i: word, pc: word, sp: byte)

  predicate Shaped(m: Machine)
  {
    |m.memory| == MemorySize && |m.registers| == RegistersCount
    && |m.stack| == StackSize && |m.keys| == KeysCount
  }

  /** The exceptions the interpreter loop can die of. */
  datatype Fault =
    | IndexOutOfRange   // an array index past the end (IndexOutOfRangeException)
    | StackOverflow     // the explicit check in Call_NNN
    | UnknownOpcode     // no table row matches the opcode
    | RomTooLarge       // Array.Copy of a ROM longer than the space after 0x200

  /** The snapshot after a routine and the exception it threw, if any. */
  datatype Step = Step(m: Machine, fault: Option<Fault>)

  function Next(m: Machine): Step
  {
    Step(m, None)
  }

  function Throw(m: Machine, f: Fault): Step
  {
    Step(m, Some(f))
  }

  /** PC += 2, wrapping as a ushort. */
  function Advance(m: Machine): Machine
  {
    m.(pc := AddWord(m.pc, 2))
  }

  /** `PC += cond ? 4 : 2`. */
  function SkipIf(m: Machine, cond: bool): Step
  {
    Next(m.(pc := AddWord(m.pc, if cond then 4 else 2)))
  }

  /** Writes `v` to register `x` and advances; `x` must name a register. */
  function SetRegister(m: Machine, x: byte, v: byte): Machine
    requires Shaped(m) && x < 16
  {
    Advance(m.(registers := m.registers[x := v]))
  }

  // ---- control flow ----

  /** CLS: the screen is cleared (not modelled) and PC advances. */
  function ClearSpec(m: Machine): Step
  {
    Next(Advance(m))
  }

  /** RET: `PC = stack[--SP]`; with SP = 0 the byte wraps to 255 and the read throws. */
  function ReturnSpec(m: Machine): Step
    requires Shaped(m)
  {
    var sp := AddByte(m.sp, -1);
    if sp as int >= StackSize then Throw(m.(sp := sp), IndexOutOfRange)
    else Next(m.(sp := sp, pc := m.stack[sp]))
  }

  /** JMP_NNN. */
  function JumpSpec(m: Machine, nnn: word): Step
  {
    Next(m.(pc := nnn))
  }

  /**
   * CALL_NNN as written: `stack[SP++] = PC + 2`, then throw once SP has
   * reached the stack size, then jump.  The 16th nested call fills the
   * last slot and still throws.
   */
  function CallAsWritten(m: Machine, nnn: word): Step
    requires Shaped(m)
  {
    var slot := m.sp;
    var sp := AddByte(m.sp, 1);
    if slot as int >= StackSize then Throw(m.(sp := sp), IndexOutOfRange)
    else
      var pushed := m.(stack := m.stack[slot := AddWord(m.pc, 2)], sp := sp);
      if sp as int >= StackSize then Throw(pushed, StackOverflow)
      else Next(pushed.(pc := nnn))
  }

  /** CALL_NNN throwing only when the stack has no free slot for the return address. */
  function CallSpec(m: Machine, nnn: word): Step
    requires Shaped(m)
  {
    if m.sp as int >= StackSize then Throw(m, StackOverflow)
    else Next(m.(stack := m.stack[m.sp := AddWord(m.pc, 2)], sp := m.sp + 1, pc := nnn))
  }

  /** JMP_V0_NNN: `PC = (ushort)(V0 + NNN)`. */
  function JumpV0Spec(m: Machine, nnn: word): Step
    requires Shaped(m)
  {
    Next(m.(pc := AddWord(nnn, m.registers[0] as int)))
  }

  // ---- skips ----

  function SkipEqualVxNnSpec(m: Machine, x: byte, nn: byte): Step
    requires Shaped(m)
  {
    if x >= 16 then Throw(m, IndexOutOfRange) else SkipIf(m, m.registers[x] == nn)
  }

  function SkipNotEqualVxNnSpec(m: Machine, x: byte, nn: byte): Step
    requires Shaped(m)
  {
    if x >= 16 then Throw(m, IndexOutOfRange) else SkipIf(m, m.registers[x] != nn)
  }

  function SkipEqualVxVySpec(m: Machine, x: byte, y: byte): Step
    requires Shaped(m)
  {
    if x >= 16 || y >= 16 then Throw(m, IndexOutOfRange)
    else SkipIf(m, m.registers[x] == m.registers[y])
  }

  function SkipNotEqualVxVySpec(m: Machine, x: byte, y: byte): Step
    requires Shaped(m)
  {
    if x >= 16 || y >= 16 then Throw(m, IndexOutOfRange)
    else SkipIf(m, m.registers[x] != m.registers[y])
  }

  /** SKP_VX: skip when the key numbered VX is pressed; VX past the 16 keys throws. */
  function SkipKeyPressedSpec(m: Machine, x: byte): Step
    requires Shaped(m)
  {
    if x >= 16 || m.registers[x] >= 16 then Throw(m, IndexOutOfRange)
    else SkipIf(m, m.keys[m.registers[x]] == 1)
  }

  /** SKNP_VX: skip when the key numbered VX is released. */
  function SkipKeyNotPressedSpec(m: Machine, x: byte): Step
    requires Shaped(m)
  {
    if x >= 16 || m.registers[x] >= 16 then Throw(m, IndexOutOfRange)
    else SkipIf(m, m.keys[m.registers[x]] == 0)
  }

  // ---- registers ----

  function LoadVxNnSpec(m: Machine, x: byte, nn: byte): Step
    requires Shaped(m)
  {
    if x >= 16 then Throw(m, IndexOutOfRange) else Next(SetRegister(m, x, nn))
  }

  /** ADD_VX_NN: `VX += NN` with byte wrap-around, carry flag untouched. */
  function AddVxNnSpec(m: Machine, x: byte, nn: byte): Step
    requires Shaped(m)
  {
    if x >= 16 then Throw(m, IndexOutOfRange) else Next(SetRegister(m, x, AddByte(m.registers[x], nn as int)))
  }

  function LoadVxVySpec(m: Machine, x: byte, y: byte): Step
    requires Shaped(m)
  {
    if x >= 16 || y >= 16 then Throw(m, IndexOutOfRange) else Next(SetRegister(m, x, m.registers[y]))
  }

  function OrVxVySpec(m: Machine, x: byte, y: byte): Step
    requires Shaped(m)
  {
    if x >= 16 || y >= 16 then Throw(m, IndexOutOfRange)
    else Next(SetRegister(m, x, Or8(m.registers[x], m.registers[y])))
  }

  function AndVxVySpec(m: Machine, x: byte, y: byte): Step
    requires Shaped(m)
  {
    if x >= 16 || y >= 16 then Throw(m, IndexOutOfRange)
    else Next(SetRegister(m, x, And8(m.registers[x], m.registers[y])))
  }

  function XorVxVySpec(m: Machine, x: byte, y: byte): Step
    requires Shaped(m)
  {
    if x >= 16 || y >= 16 then Throw(m, IndexOutOfRange)
    else Next(SetRegister(m, x, Xor8(m.registers[x], m.registers[y])))
  }

  /** ADD_VX_VY: carry = (0xFF - VX < VY), then VX += VY. */
  function AddVxVySpec(m: Machine, x: byte, y: byte): Step
    requires Shaped(m)
  {
    if x >= 16 || y >= 16 then Throw(m, IndexOutOfRange)
    else
      var vx, vy := m.registers[x], m.registers[y];
      Next(SetRegister(m.(carryFlag := if 0xFF - vx < vy then 1 else 0), x, AddByte(vx, vy as int)))
  }

  /** SUB_VX_VY: carry = (VX > VY), then VX -= VY. */
  function SubtractBorrowSpec(m: Machine, x: byte, y: byte): Step
    requires Shaped(m)
  {
    if x >= 16 || y >= 16 then Throw(m, IndexOutOfRange)
    else
      var vx, vy := m.registers[x], m.registers[y];
      Next(SetRegister(m.(carryFlag := if vx > vy then 1 else 0), x, AddByte(vx, -(vy as int))))
  }

  /** SUBN_VX_VY: carry = (VX < VY), then VX = VY - VX. */
  function SubtractNoBorrowSpec(m: Machine, x: byte, y: byte): Step
    requires Shaped(m)
  {
    if x >= 16 || y >= 16 then Throw(m, IndexOutOfRange)
    else
      var vx, vy := m.registers[x], m.registers[y];
      Next(SetRegister(m.(carryFlag := if vx < vy then 1 else 0), x, AddByte(vy, -(vx as int))))
  }

  /** SHR_VX_{VY}: carry = VX & 1, then VX >>= 1; VY is not read. */
  function ShiftRightSpec(m: Machine, x: byte): Step
    requires Shaped(m)
  {
    if x >= 16 then Throw(m, IndexOutOfRange)
    else
      var vx := m.registers[x];
      Next(SetRegister(m.(carryFlag := And8(vx, 1)), x, vx / 2))
  }

  /** SHL_VX_{VY}: carry = VX & 0x80, then VX <<= 1; VY is not read. */
  function ShiftLeftSpec(m: Machine, x: byte): Step
    requires Shaped(m)
  {
    if x >= 16 then Throw(m, IndexOutOfRange)
    else
      var vx := m.registers[x];
      Next(SetRegister(m.(carryFlag := And8(vx, 0x80)), x, AddByte(vx, vx as int)))
  }

  // ---- timers and I ----

  function LoadINnnSpec(m: Machine, nnn: word): Step
  {
    Next(Advance(m.(i := nnn)))
  }

  function LoadVxDtSpec(m: Machine, x: byte): Step
    requires Shaped(m)
  {
    if x >= 16 then Throw(m, IndexOutOfRange) else Next(SetRegister(m, x, m.dt))
  }

  function LoadDtVxSpec(m: Machine, x: byte): Step
    requires Shaped(m)
  {
    if x >= 16 then Throw(m, IndexOutOfRange) else Next(Advance(m.(dt := m.registers[x])))
  }

  function LoadStVxSpec(m: Machine, x: byte): Step
    requires Shaped(m)
  {
    if x >= 16 then Throw(m, IndexOutOfRange) else Next(Advance(m.(st := m.registers[x])))
  }

  /** ADD_I_VX: `I += VX`, wrapping as a ushort. */
  function AddIVxSpec(m: Machine, x: byte): Step
    requires Shaped(m)
  {
    if x >= 16 then Throw(m, IndexOutOfRange) else Next(Advance(m.(i := AddWord(m.i, m.registers[x] as int))))
  }

  /** LD_F_VX: I = address of the glyph of digit VX, `VX * 5`. */
  function LoadFontSpec(m: Machine, x: byte): Step
    requires Shaped(m)
  {
    if x >= 16 then Throw(m, IndexOutOfRange) else Next(Advance(m.(i := m.registers[x] as word * 5)))
  }

  // ---- memory ----

  /** The hundreds, tens and ones of a byte, computed as the source does. */
  function Digits(v: byte): (byte, byte, byte)
  {
    var n := v as int;
    var h := n / 100;
    var t := (n - h * 100) / 10;
    var o := n - h * 100 - t * 10;
    (h as byte, t as byte, o as byte)
  }

  /**
   * LD_B_VX: the digits of VX to memory[I], memory[I+1], memory[I+2], one
   * write at a time; the first address past the end throws, after the
   * writes before it.
   */
  function LoadBcdSpec(m: Machine, x: byte): Step
    requires Shaped(m)
  {
    if x >= 16 then Throw(m, IndexOutOfRange)
    else
      var (h, t, o) := Digits(m.registers[x]);
      var a := m.i as int;
      if a >= MemorySize then Throw(m, IndexOutOfRange)
      else
        var m1 := m.(memory := m.memory[a := h]);
        if a + 1 >= MemorySize then Throw(m1, IndexOutOfRange)
        else
          var m2 := m1.(memory := m1.memory[a + 1 := t]);
          if a + 2 >= MemorySize then Throw(m2, IndexOutOfRange)
          else Next(Advance(m2.(memory := m2.memory[a + 2 := o])))
  }

  /**
   * How many iterations of `for (i = 0; i <= VX; i++)` over
   * `memory[I + i]` and `registers[i]` complete before an index runs past
   * the end of either array.
   */
  function CopyCount(m: Machine, x: byte): (n: nat)
    ensures n <= x as int + 1 && n <= RegistersCount
    ensures m.i as int + n <= MemorySize || n == 0
  {
    var room := if m.i as int >= MemorySize then 0 else MemorySize - m.i as int;
    var n := x as int + 1;
    var n := if n > RegistersCount then RegistersCount else n;
    if n > room then room else n
  }

  /** Memory with `memory[I + j] = registers[j]` for j < n. */
  function StoredMemory(m: Machine, n: nat): seq<byte>
    requires Shaped(m) && n <= RegistersCount && (n == 0 || m.i as int + n <= MemorySize)
  {
    seq(MemorySize, k requires 0 <= k < MemorySize =>
      if m.i as int <= k < m.i as int + n then m.registers[k - m.i as int] else m.memory[k])
  }

  /** Registers with `registers[j] = memory[I + j]` for j < n. */
  function LoadedRegisters(m: Machine, n: nat): seq<byte>
    requires Shaped(m) && n <= RegistersCount && (n == 0 || m.i as int + n <= MemorySize)
  {
    seq(RegistersCount, k requires 0 <= k < RegistersCount =>
      if k < n then m.memory[m.i as int + k] else m.registers[k])
  }

  /** LD_[I]_VX: copy V0..VX to memory[I..I+X]; an index past an end throws mid-copy. */
  function StoreRegistersSpec(m: Machine, x: byte): Step
    requires Shaped(m)
  {
    var n := CopyCount(m, x);
    var m1 := m.(memory := StoredMemory(m, n));
    if n < x as int + 1 then Throw(m1, IndexOutOfRange) else Next(Advance(m1))
  }

  /** LD_VX_[I]: copy memory[I..I+X] to V0..VX; an index past an end throws mid-copy. */
  function LoadRegistersSpec(m: Machine, x: byte): Step
    requires Shaped(m)
  {
    var n := CopyCount(m, x);
    var m1 := m.(registers := LoadedRegisters(m, n));
    if n < x as int + 1 then Throw(m1, IndexOutOfRange) else Next(Advance(m1))
  }

  // ---- dispatch ----

  /** The routines this model leaves out: drawing, random numbers and the key wait. */
  predicate Modelled(r: Routine)
  {
    r != DrawVxVyN && r != RandomVxNn && r != LoadVxK
  }

  /** How many operands a routine's DecodeArgs overload reads. */
  function Arity(r: Routine): nat
  {
    match r
    case Clear => 0
    case Return => 0
    case SkipEqualVxNn | SkipNotEqualVxNn | SkipEqualVxVy | SkipNotEqualVxVy
      | LoadVxNn | AddVxNn | LoadVxVy | OrVxVy | AndVxVy | XorVxVy | AddVxVy
      | SubtractBorrowVxVy | SubtractNoBorrowVxVy | RandomVxNn => 2
    case DrawVxVyN => 3
    case _ => 1
  }

  /** DecodeArgs's `out ushort` and `out byte` operands. */
  function WordArg(a: Argument, opcode: bv16): word { ArgWord(a, opcode) as word }
  function ByteArg(a: Argument, opcode: bv16): byte { ArgByte(a, opcode) as byte }

  /** Run the routine of row `e` on `opcode`, with the operands DecodeArgs extracts. */
  function Execute(m: Machine, e: Instruction, opcode: bv16): Step
    requires Shaped(m) && Modelled(e.routine) && |e.args| >= Arity(e.routine)
  {
    match e.routine
    case Clear => ClearSpec(m)
    case Return => ReturnSpec(m)
    case JumpNnn => JumpSpec(m, WordArg(e.args[0], opcode))
    case CallNnn => CallSpec(m, WordArg(e.args[0], opcode))
    case SkipEqualVxNn => SkipEqualVxNnSpec(m, ByteArg(e.args[0], opcode), ByteArg(e.args[1], opcode))
    case SkipNotEqualVxNn => SkipNotEqualVxNnSpec(m, ByteArg(e.args[0], opcode), ByteArg(e.args[1], opcode))
    case SkipEqualVxVy => SkipEqualVxVySpec(m, ByteArg(e.args[0], opcode), ByteArg(e.args[1], opcode))
    case LoadVxNn => LoadVxNnSpec(m, ByteArg(e.args[0], opcode), ByteArg(e.args[1], opcode))
    case AddVxNn => AddVxNnSpec(m, ByteArg(e.args[0], opcode), ByteArg(e.args[1], opcode))
    case LoadVxVy => LoadVxVySpec(m, ByteArg(e.args[0], opcode), ByteArg(e.args[1], opcode))
    case OrVxVy => OrVxVySpec(m, ByteArg(e.args[0], opcode), ByteArg(e.args[1], opcode))
    case AndVxVy => AndVxVySpec(m, ByteArg(e.args[0], opcode), ByteArg(e.args[1], opcode))
    case XorVxVy => XorVxVySpec(m, ByteArg(e.args[0], opcode), ByteArg(e.args[1], opcode))
    case AddVxVy => AddVxVySpec(m, ByteArg(e.args[0], opcode), ByteArg(e.args[1], opcode))
    case SubtractBorrowVxVy => SubtractBorrowSpec(m, ByteArg(e.args[0], opcode), ByteArg(e.args[1], opcode))
    case ShiftRightVxVy => ShiftRightSpec(m, ByteArg(e.args[0], opcode))
    case SubtractNoBorrowVxVy => SubtractNoBorrowSpec(m, ByteArg(e.args[0], opcode), ByteArg(e.args[1], opcode))
    case ShiftLeftVxVy => ShiftLeftSpec(m, ByteArg(e.args[0], opcode))
    case SkipNotEqualVxVy => SkipNotEqualVxVySpec(m, ByteArg(e.args[0], opcode), ByteArg(e.args[1], opcode))
    case LoadINnn => LoadINnnSpec(m, WordArg(e.args[0], opcode))
    case JumpV0Nnn => JumpV0Spec(m, WordArg(e.args[0], opcode))
    case SkipKeyPressedVx => SkipKeyPressedSpec(m, ByteArg(e.args[0], opcode))
    case SkipKeyNotPressedVx => SkipKeyNotPressedSpec(m, ByteArg(e.args[0], opcode))
    case LoadVxDt => LoadVxDtSpec(m, ByteArg(e.args[0], opcode))
    case LoadDtVx => LoadDtVxSpec(m, ByteArg(e.args[0], opcode))
    case LoadStVx => LoadStVxSpec(m, ByteArg(e.args[0], opcode))
    case AddIVx => AddIVxSpec(m, ByteArg(e.args[0], opcode))
    case LoadFontVx => LoadFontSpec(m, ByteArg(e.args[0], opcode))
    case LoadBcdVx => LoadBcdSpec(m, ByteArg(e.args[0], opcode))
    case StoreRegisters => StoreRegistersSpec(m, ByteArg(e.args[0], opcode))
    case LoadRegisters => LoadRegistersSpec(m, ByteArg(e.args[0], opcode))
  }

  /** `(memory[PC] << 8) | memory[PC + 1]`, or None when PC + 1 is past the end of memory. */
  function FetchSpec(m: Machine): (r: Option<bv16>)
    requires Shaped(m)
    ensures r.Some? <==> m.pc as int + 1 < MemorySize
    ensures r.Some? ==> r.value >> 8 == m.memory[m.pc] as bv16 && r.value & 0xFF == m.memory[m.pc as int + 1] as bv16
  {
    if m.pc as int + 1 >= MemorySize then None
    else Some(((m.memory[m.pc] as bv16) << 8) | m.memory[m.pc as int + 1] as bv16)
  }

  /** One timer period: DT and ST each count down by one unless already 0. */
  function TickSpec(m: Machine): Machine
  {
    m.(dt := if m.dt > 0 then m.dt - 1 else m.dt, st := if m.st > 0 then m.st - 1 else m.st)
  }
  /** Every row of the table carries the operands its routine's DecodeArgs reads. */
  lemma TableArity()
    ensures forall k :: 0 <= k < |Table()| ==> |Table()[k].args| >= Arity(Table()[k].routine)
  {
    assert forall k :: 0 <= k < 17 ==> |Table()[k].args| >= Arity(Table()[k].routine);
    assert forall k :: 17 <= k < 34 ==> |Table()[k].args| >= Arity(Table()[k].routine);
  }

  /** A decoded row carries the operands its routine reads. */
  lemma DecodedArity(opcode: bv16)
    ensures Decode(opcode).Some? ==> |Decode(opcode).value.args| >= Arity(Decode(opcode).value.routine)
  {
    TableArity();
  }

  /** One turn of the interpreter loop, or the routine it reached when that routine is not modelled. */
  datatype Outcome = Ran(step: Step) | Unmodelled(routine: Routine)

  /**
   * Fetch, Decode, Execute under the lock of the interpreter loop.  An
   * opcode no row matches stops the machine with UnknownOpcode.
   */
  function CycleSpec(m: Machine): Outcome
    requires Shaped(m)
  {
    match FetchSpec(m)
    case None => Ran(Throw(m, IndexOutOfRange))
    case Some(opcode) => DispatchSpec(m, opcode)
  }

  /** Decode and Execute of one fetched opcode. */
  function DispatchSpec(m: Machine, opcode: bv16): Outcome
    requires Shaped(m)
  {
    match Decode(opcode)
    case None => Ran(Throw(m, UnknownOpcode))
    case Some(e) =>
      if !Modelled(e.routine) then Unmodelled(e.routine)
      else
        DecodedArity(opcode);
        Ran(Execute(m, e, opcode))
  }

  /** The machine LoadROM leaves before copying the ROM: everything zero, the font at 0, PC at 0x200. */
  function Reset(): Machine
  {
    Machine(Font + seq(MemorySize - |Font|, _ => 0), seq(RegistersCount, _ => 0),
            seq(StackSize, _ => 0), seq(KeysCount, _ => 0), 0, 0, 0, 0, ProgramStart, 0)
  }

  /** LoadROM: reset, then copy the ROM to 0x200; a ROM that does not fit throws before the copy. */
  function LoadRomSpec(data: seq<byte>): Step
  {
    var m := Reset();
    if |data| > MemorySize - ProgramStart as int then Throw(m, RomTooLarge)
    else Next(m.(memory := m.memory[..ProgramStart] + data + m.memory[ProgramStart as int + |data|..]))
  }
}
