/**
 * Fetch-side decoding of the CHIP-8 interpreter (Chip8Emulator/Chip8.cs):
 * the opcode table, the first-match `Decode` and the mask/shift operand
 * extraction `DecodeArgs`.  Opcodes are `ushort`, here `bv16`.
 */
module Chip8Decode {
  import opened Results

  /** The routine an instruction runs; one constructor per routine of the table. */
  datatype Routine =
    | Clear | Return | JumpNnn | CallNnn
    | SkipEqualVxNn | SkipNotEqualVxNn | SkipEqualVxVy
    | LoadVxNn | AddVxNn
    | LoadVxVy | OrVxVy | AndVxVy | XorVxVy | AddVxVy
    | SubtractBorrowVxVy | ShiftRightVxVy | SubtractNoBorrowVxVy | ShiftLeftVxVy
    | SkipNotEqualVxVy | LoadINnn | JumpV0Nnn | RandomVxNn | DrawVxVyN
    | SkipKeyPressedVx | SkipKeyNotPressedVx
    | LoadVxDt | LoadVxK | LoadDtVx | LoadStVx | AddIVx | LoadFontVx
    | LoadBcdVx | StoreRegisters | LoadRegisters

  /** An operand: the bits `mask` of the opcode, shifted right by `shift`. */
  datatype Argument = Argument(name: string, mask: bv16, shift: Shift)

  /** A shift amount a 16-bit opcode allows. */
  type Shift = s: nat | s <= 16

  /** A table row: the opcode matches when `opcode & mask == pattern`. */
  datatype Instruction = Instruction(name: string, mask: bv16, pattern: bv16, args: seq<Argument>, routine: Routine)

  const NNN := Argument("NNN", 0x0FFF, 0)
  const VX := Argument("VX", 0x0F00, 8)
  const VY := Argument("VY", 0x00F0, 4)
  const NN := Argument("NN", 0x00FF, 0)
  const N := Argument("N", 0x000F, 0)

  /** Row `i` of the opcode table (opcodeToInstructionMappings). */
  function Row(i: int): Instruction
  {
    if      i ==  0 then Instruction("CLS",         0xFFFF, 0x00E0, [],          Clear)
    else if i ==  1 then Instruction("RET",         0xFFFF, 0x00EE, [],          Return)
    else if i ==  2 then Instruction("JMP_NNN",     0xF000, 0x1000, [NNN],       JumpNnn)
    else if i ==  3 then Instruction("CALL_NNN",    0xF000, 0x2000, [NNN],       CallNnn)
    else if i ==  4 then Instruction("SE_VX_NN",    0xF000, 0x3000, [VX, NN],    SkipEqualVxNn)
    else if i ==  5 then Instruction("SNE_VX_NN",   0xF000, 0x4000, [VX, NN],    SkipNotEqualVxNn)
    else if i ==  6 then Instruction("SE_VX_VY",    0xF000, 0x5000, [VX, VY],    SkipEqualVxVy)
    else if i ==  7 then Instruction("LD_VX_NN",    0xF000, 0x6000, [VX, NN],    LoadVxNn)
    else if i ==  8 then Instruction("ADD_VX_NN",   0xF000, 0x7000, [VX, NN],    AddVxNn)
    else if i ==  9 then Instruction("LD_VX_VY",    0xF00F, 0x8000, [VX, VY],    LoadVxVy)
    else if i == 10 then Instruction("OR_VX_VY",    0xF00F, 0x8001, [VX, VY],    OrVxVy)
    else if i == 11 then Instruction("AND_VX_VY",   0xF00F, 0x8002, [VX, VY],    AndVxVy)
    else if i == 12 then Instruction("XOR_VX_VY",   0xF00F, 0x8003, [VX, VY],    XorVxVy)
    else if i == 13 then Instruction("ADD_VX_VY",   0xF00F, 0x8004, [VX, VY],    AddVxVy)
    else if i == 14 then Instruction("SUB_VX_VY",   0xF00F, 0x8005, [VX, VY],    SubtractBorrowVxVy)
    else if i == 15 then Instruction("SHR_VX_{VY}", 0xF00F, 0x8006, [VX, VY],    ShiftRightVxVy)
    else if i == 16 then Instruction("SUBN_VX_VY",  0xF00F, 0x8007, [VX, VY],    SubtractNoBorrowVxVy)
    else if i == 17 then Instruction("SHL_VX_{VY}", 0xF00F, 0x800E, [VX, VY],    ShiftLeftVxVy)
    else if i == 18 then Instruction("SNE_VX_VY",   0xF00F, 0x9000, [VX, VY],    SkipNotEqualVxVy)
    else if i == 19 then Instruction("LD_I_NNN",    0xF000, 0xA000, [NNN],       LoadINnn)
    else if i == 20 then Instruction("JMP_V0_NNN",  0xF000, 0xB000, [NNN],       JumpV0Nnn)
    else if i == 21 then Instruction("RND_VX_NN",   0xF000, 0xC000, [VX, NN],    RandomVxNn)
    else if i == 22 then Instruction("DRW_VX_VY_N", 0xF000, 0xD000, [VX, VY, N], DrawVxVyN)
    else if i == 23 then Instruction("SKP_VX",      0xF0FF, 0xE09E, [VX],        SkipKeyPressedVx)
    else if i == 24 then Instruction("SKNP_VX",     0xF0FF, 0xE0A1, [VX],        SkipKeyNotPressedVx)
    else if i == 25 then Instruction("LD_VX_DT",    0xF0FF, 0xF007, [VX],        LoadVxDt)
    else if i == 26 then Instruction("LD_VX_K",     0xF0FF, 0xF00A, [VX],        LoadVxK)
    else if i == 27 then Instruction("LD_DT_VX",    0xF0FF, 0xF015, [VX],        LoadDtVx)
    else if i == 28 then Instruction("LD_ST_VX",    0xF0FF, 0xF018, [VX],        LoadStVx)
    else if i == 29 then Instruction("ADD_I_VX",    0xF0FF, 0xF01E, [VX],        AddIVx)
    else if i == 30 then Instruction("LD_F_VX",     0xF0FF, 0xF029, [VX],        LoadFontVx)
    else if i == 31 then Instruction("LD_B_VX",     0xF0FF, 0xF033, [VX],        LoadBcdVx)
    else if i == 32 then Instruction("LD_[I]_VX",   0xF0FF, 0xF055, [VX],        StoreRegisters)
    else                 Instruction("LD_VX_[I]",   0xF0FF, 0xF065, [VX],        LoadRegisters)
  }

  /** The opcode table, in the order `Decode` searches it. */
  function Table(): (t: seq<Instruction>)
    ensures |t| == 34
  {
    seq(34, i => Row(i))
  }

  predicate Matches(e: Instruction, opcode: bv16)
  {
    opcode & e.mask == e.pattern
  }

  /** Index of the first row of `t` at or after `from` that matches `opcode` (Array.Find). */
  function FirstMatch(t: seq<Instruction>, opcode: bv16, from: nat): (r: Option<nat>)
    requires from <= |t|
    ensures r.Some? ==> from <= r.value < |t| && Matches(t[r.value], opcode)
    ensures r.Some? ==> forall j :: from <= j < r.value ==> !Matches(t[j], opcode)
    ensures r.None? ==> forall j :: from <= j < |t| ==> !Matches(t[j], opcode)
    decreases |t| - from
  {
    if from == |t| then None
    else if Matches(t[from], opcode) then Some(from)
    else FirstMatch(t, opcode, from + 1)
  }

  /**
   * The first table row matching `opcode`, or None when no row matches
   * (the source then goes on with a default row, see `FindAsWritten`).
   */
  function Decode(opcode: bv16): (r: Option<Instruction>)
    ensures r.Some? ==> exists i :: 0 <= i < |Table()| && r.value == Table()[i] && Matches(Table()[i], opcode)
                          && forall j :: 0 <= j < i ==> !Matches(Table()[j], opcode)
    ensures r.None? <==> forall i :: 0 <= i < |Table()| ==> !Matches(Table()[i], opcode)
  {
    match FirstMatch(Table(), opcode, 0)
    case None => None
    case Some(i) => Some(Table()[i])
  }

  /** The search returns `k` when row `k` is the first row at or after `from` that matches. */
  lemma {:induction false} FirstMatchIs(t: seq<Instruction>, opcode: bv16, from: nat, k: nat)
    requires from <= k < |t| && Matches(t[k], opcode)
    requires forall j :: from <= j < k ==> !Matches(t[j], opcode)
    ensures FirstMatch(t, opcode, from) == Some(k)
    decreases k - from
  {
    if from < k {
      FirstMatchIs(t, opcode, from + 1, k);
    }
  }

  /** `8XY8` names no instruction: no row matches, whatever X and Y are. */
  lemma UndefinedEightXY8(opcode: bv16)
    requires opcode & 0xF00F == 0x8008
    ensures Decode(opcode) == None
  {
    assert forall i :: 0 <= i < |Table()| ==> !Matches(Table()[i], opcode);
  }

  /** `0NNN` other than CLS (00E0) and RET (00EE) names no instruction. */
  lemma UndefinedZeroNnn(opcode: bv16)
    requires opcode < 0x1000 && opcode != 0x00E0 && opcode != 0x00EE
    ensures Decode(opcode) == None
  {
    assert forall i :: 0 <= i < 17 ==> !Matches(Table()[i], opcode);
    assert forall i :: 17 <= i < |Table()| ==> !Matches(Table()[i], opcode);
  }

  /** 00EE decodes to RET, 2NNN to CALL_NNN and 8XY4 to ADD_VX_VY. */
  lemma DecodeReturnCallAdd(opcode: bv16)
    ensures opcode == 0x00EE ==> Decode(opcode) == Some(Table()[1]) && Table()[1].routine == Return
    ensures opcode & 0xF000 == 0x2000 ==> Decode(opcode) == Some(Table()[3]) && Table()[3].routine == CallNnn
    ensures opcode & 0xF00F == 0x8004 ==> Decode(opcode) == Some(Table()[13]) && Table()[13].routine == AddVxVy
  {
    if opcode == 0x00EE {
      FirstMatchIs(Table(), opcode, 0, 1);
    } else if opcode & 0xF000 == 0x2000 {
      FirstMatchIs(Table(), opcode, 0, 3);
    } else if opcode & 0xF00F == 0x8004 {
      assert forall j :: 0 <= j < 13 ==> !Matches(Table()[j], opcode);
      FirstMatchIs(Table(), opcode, 0, 13);
    }
  }

  /**
   * The row the source's Array.Find hands to the undefined-opcode check.
   * Without a match it is default(Instruction): all fields zero or null,
   * including `undefined`, whose `= true` initializer runs only inside the
   * struct's constructor.  `routine` is None for the null delegate.
   */
  datatype Found = Found(undefined: bool, routine: Option<Routine>)

  function FindAsWritten(opcode: bv16): Found
  {
    match FirstMatch(Table(), opcode, 0)
    case Some(i) => Found(false, Some(Table()[i].routine))
    case None => Found(false, None)
  }

  /** Decode as written: it throws only when the found row is flagged undefined. */
  function DecodeAsWritten(opcode: bv16): (r: Option<Found>)
    ensures r.Some? <==> !FindAsWritten(opcode).undefined
  {
    var found := FindAsWritten(opcode);
    if found.undefined then None else Some(found)
  }

  /**
   * The undefined-opcode check never fires: an unknown opcode such as 8XY8
   * gets past Decode and reaches Execute with no routine to call.
   */
  lemma UnknownOpcodePassesDecodeAsWritten(opcode: bv16)
    requires opcode & 0xF00F == 0x8008
    ensures DecodeAsWritten(opcode) == Some(Found(false, None))
    ensures Decode(opcode) == None
  {
    UndefinedEightXY8(opcode);
  }

  /** `(opcode & mask) >> shift`: an operand as the ushort DecodeArgs overload reads it. */
  function ArgWord(a: Argument, opcode: bv16): bv16
  {
    (opcode & a.mask) >> a.shift
  }

  /** The same operand cast to byte, as the byte DecodeArgs overloads read it. */
  function ArgByte(a: Argument, opcode: bv16): bv8
  {
    (ArgWord(a, opcode) & 0xFF) as bv8
  }

  /** The register operands are the opcode's second and third nibbles, so they name one of 16 registers. */
  lemma RegisterOperands(opcode: bv16)
    ensures ArgByte(VX, opcode) < 16 && ArgByte(VX, opcode) as bv16 == (opcode >> 8) & 0xF
    ensures ArgByte(VY, opcode) < 16 && ArgByte(VY, opcode) as bv16 == (opcode >> 4) & 0xF
  {
    assert ArgByte(VX, opcode) < 16;
  }

  /** N is the low nibble, NN the low byte and NNN the low 12 bits. */
  lemma ValueOperands(opcode: bv16)
    ensures ArgByte(N, opcode) < 16 && ArgByte(N, opcode) as bv16 == opcode & 0xF
    ensures ArgByte(NN, opcode) as bv16 == opcode & 0xFF
    ensures ArgWord(NNN, opcode) <= 0xFFF && ArgWord(NNN, opcode) == opcode & 0xFFF
  {
    assert ArgByte(N, opcode) < 16;
  }
}
