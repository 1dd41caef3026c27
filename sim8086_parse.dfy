/** The 8086 instruction decoder of sim8086/src/parse.rs: bit-field helpers,
    registers, effective addresses, operands and the ordered first-match
    classification of the first instruction byte (Intel 8086 Family User's
    Manual, Table 4-12, restricted to MOV, ADD, SUB, CMP, the conditional
    jumps, the loop family and HLT).

    Decoding returns `Ok(Some((length, inst)))`, `Ok(None)` when no pattern
    matches, or `Panic` where the Rust code indexes past the end of its slice
    or calls `expect` on an arithmetic sub-opcode it does not know. */
module Sim8086Parse {
  import opened Results

  // ---------------------------------------------------------------------------
  // Bit fields. Offsets count from the most significant bit, as in the source.

  /** The all-ones pattern of `len` bits. */
  function Mask(len: nat): bv8
    requires len <= 8
  {
    ((1 as bv8) << len) - 1
  }

  /** `(byte << offset) >> (8 - len)` on u8: the `len`-bit field that starts
      `offset` bits below the most significant bit. */
  function GetBits(byte: bv8, offset: nat, len: nat): (r: bv8)
    requires offset < 8 && 1 <= len <= 8
    ensures r <= Mask(len)
  {
    (byte << offset) >> (8 - len)
  }

  function GetBit(byte: bv8, offset: nat): (b: bool)
    requires offset < 8
  {
    GetBits(byte, offset, 1) == 1
  }

  /** The fields of the opcode byte and of the mod/reg/rm byte, as masks. */
  lemma FieldsAsMasks(b: bv8)
    ensures GetBit(b, 6) <==> b & 2 != 0
    ensures GetBit(b, 7) <==> b & 1 != 0
    ensures GetBit(b, 4) <==> b & 8 != 0
    ensures GetBits(b, 0, 2) == b >> 6
    ensures GetBits(b, 2, 3) == (b >> 3) & 7
    ensures GetBits(b, 5, 3) == b & 7
    ensures GetBits(b, 4, 4) == b & 15
    ensures GetBits(b, 6, 2) == b & 3
  {
  }

  // ---------------------------------------------------------------------------
  // Little-endian data and displacements.

  type I8 = x: int | -0x80 <= x < 0x80
  type I16 = x: int | -0x8000 <= x < 0x8000

  /** Reading index `i` of a slice; past the end the Rust code panics. */
  function At(bs: seq<bv8>, i: nat): (r: Result<bv8>)
    ensures r.Ok? <==> i < |bs|
    ensures r.Ok? ==> r.value == bs[i]
  {
    if i < |bs| then Ok(bs[i]) else Panic("index out of bounds")
  }

  /** `u16::from_le_bytes([lo, hi])`. */
  function LeWord(lo: bv8, hi: bv8): (w: bv16)
    ensures w & 0xFF == lo as bv16 && w >> 8 == hi as bv16
  {
    ((hi as bv16) << 8) | (lo as bv16)
  }

  /** `x as i8`: the two's-complement reading of a byte. */
  function SignedByte(b: bv8): (x: I8)
    ensures 0 <= x ==> x == b as int
    ensures x < 0 ==> x + 0x100 == b as int
  {
    if b < 0x80 then b as int else b as int - 0x100
  }

  /** `x as i16`: the two's-complement reading of a word. */
  function SignedWord(w: bv16): (x: I16)
    ensures 0 <= x ==> x == w as int
    ensures x < 0 ==> x + 0x10000 == w as int
  {
    var u := w as int;
    if u < 0x8000 then u else u - 0x10000
  }

  /** The number of data bytes `get_data` reads. */
  function DataLength(signExtend: bool, wide: bool): nat
  {
    if !signExtend && wide then 2 else 1
  }

  /** `get_data`: two little-endian bytes when the operand is wide and not
      sign-extended, otherwise one byte, zero-extended. */
  function GetData(signExtend: bool, wide: bool, data: seq<bv8>): (r: Result<(nat, bv16)>)
    ensures r.Ok? <==> |data| >= DataLength(signExtend, wide)
    ensures r.Ok? ==> r.value.0 == DataLength(signExtend, wide)
    ensures r.Ok? ==> r.value.1 & 0xFF == data[0] as bv16
    ensures r.Ok? && r.value.0 == 1 ==> r.value.1 < 0x100
    ensures r.Ok? && r.value.0 == 2 ==> r.value.1 >> 8 == data[1] as bv16
  {
    if !signExtend && wide then
      var lo :- At(data, 0);
      var hi :- At(data, 1);
      Ok((2, LeWord(lo, hi)))
    else
      var b :- At(data, 0);
      Ok((1, b as bv16))
  }

  /** `get_disp`: a little-endian i16 when wide, otherwise a sign-extended i8. */
  function GetDisp(wide: bool, data: seq<bv8>): (r: Result<(nat, I16)>)
    ensures r.Ok? <==> |data| >= (if wide then 2 else 1)
    ensures r.Ok? ==> r.value.0 == (if wide then 2 else 1)
    ensures r.Ok? && !wide ==> -0x80 <= r.value.1 < 0x80
  {
    if wide then
      var lo :- At(data, 0);
      var hi :- At(data, 1);
      Ok((2, SignedWord(LeWord(lo, hi))))
    else
      var b :- At(data, 0);
      Ok((1, SignedByte(b)))
  }

  // ---------------------------------------------------------------------------
  // Registers.

  datatype Register = AL | CL | DL | BL | AH | CH | DH | BH | AX | CX | DX | BX | SP | BP | SI | DI

  /** Whether a register is one of the eight 16-bit ones. */
  predicate IsWide(r: Register)
  {
    r in {AX, CX, DX, BX, SP, BP, SI, DI}
  }

  /** The 3-bit `reg` field that names a register in Table 4-12. */
  function RegisterCode(r: Register): (c: bv8)
    ensures c < 8
  {
    match r
    case AL => 0 case CL => 1 case DL => 2 case BL => 3
    case AH => 4 case CH => 5 case DH => 6 case BH => 7
    case AX => 0 case CX => 1 case DX => 2 case BX => 3
    case SP => 4 case BP => 5 case SI => 6 case DI => 7
  }

  /** `Register::from_encoding`: the two lookup tables, chosen by `wide`. It is
      the inverse of the manual's encoding (`RegisterCode`, `IsWide`). */
  function RegisterFromEncoding(reg: bv8, wide: bool): (r: Register)
    requires reg < 8
    ensures IsWide(r) == wide
    ensures RegisterCode(r) == reg
  {
    if wide then [AX, CX, DX, BX, SP, BP, SI, DI][reg as int]
    else [AL, CL, DL, BL, AH, CH, DH, BH][reg as int]
  }

  // ---------------------------------------------------------------------------
  // Effective addresses.

  datatype EffAddr = EffAddr(base: Option<Register>, index: Option<Register>, offset: Option<I16>)

  /** Some component is present, as every addressing form requires. */
  predicate HasComponent(ea: EffAddr)
  {
    ea.base.Some? || ea.index.Some? || ea.offset.Some?
  }

  /** The direct-address form: no base, no index, a displacement. */
  predicate IsDirect(ea: EffAddr)
  {
    ea.base.None? && ea.index.None? && ea.offset.Some?
  }

  /** The r/m table: BX+SI, BX+DI, BP+SI, BP+DI, SI, DI, BP, BX. */
  function EaTableEntry(rm: bv8): (ea: EffAddr)
    requires rm < 8
    ensures ea.base.Some? && ea.offset.None?
    ensures ea.index.Some? <==> rm < 4
  {
    [ EffAddr(Some(BX), Some(SI), None), EffAddr(Some(BX), Some(DI), None),
      EffAddr(Some(BP), Some(SI), None), EffAddr(Some(BP), Some(DI), None),
      EffAddr(Some(SI), None, None), EffAddr(Some(DI), None, None),
      EffAddr(Some(BP), None, None), EffAddr(Some(BX), None, None) ][rm as int]
  }

  /** The number of displacement bytes that follow the mod/reg/rm byte:
      none for mod=00 (two for the direct address mod=00, r/m=110), one for
      mod=01, two for mod=10 and none for the register form mod=11. */
  function DispLength(mode: bv8, rm: bv8): nat
  {
    if mode == 0 then (if rm == 6 then 2 else 0)
    else if mode == 1 then 1
    else if mode == 2 then 2
    else 0
  }

  /** The `match mode` of `EffAddr::from_encoding`, before the zero
      displacement is normalised; mod=11 panics. */
  function RawEffAddr(rm: bv8, mode: bv8, disp: seq<bv8>): (r: Result<(nat, EffAddr)>)
    requires rm < 8
    ensures r.Ok? <==> mode < 3 && |disp| >= DispLength(mode, rm)
    ensures r.Ok? ==> r.value.0 == DispLength(mode, rm)
    ensures r.Ok? ==> IsDirect(r.value.1) == (mode == 0 && rm == 6)
    ensures r.Ok? ==> (r.value.1.offset.Some? <==> mode != 0 || rm == 6)
    ensures r.Ok? && !IsDirect(r.value.1) ==>
              r.value.1.base == EaTableEntry(rm).base && r.value.1.index == EaTableEntry(rm).index
  {
    var baseExpr := EaTableEntry(rm);
    if mode == 0 then
      if rm == 6 then
        var d :- GetDisp(true, disp);
        Ok((d.0, EffAddr(None, None, Some(d.1))))
      else
        Ok((0, baseExpr))
    else if mode == 1 then
      var d :- GetDisp(false, disp);
      Ok((d.0, EffAddr(baseExpr.base, baseExpr.index, Some(d.1))))
    else if mode == 2 then
      var d :- GetDisp(true, disp);
      Ok((d.0, EffAddr(baseExpr.base, baseExpr.index, Some(d.1))))
    else
      Panic("Invalid encoding for effective address expression!")
  }

  /** The normalisation at the end of `EffAddr::from_encoding` as written:
      every zero displacement becomes absent, including that of the direct
      address [0], which leaves an address with no component at all. */
  function NormaliseAsWritten(ea: EffAddr): (r: EffAddr)
    ensures r.base == ea.base && r.index == ea.index
    ensures r.offset.Some? <==> ea.offset.Some? && ea.offset.value != 0
    ensures r.offset.Some? ==> r.offset == ea.offset
  {
    if ea.offset.Some? && ea.offset.value == 0 then ea.(offset := None) else ea
  }

  /** The normalisation as intended: a zero displacement is dropped only when a
      base or index register remains, so the direct address [0] keeps its
      displacement. */
  function Normalise(ea: EffAddr): (r: EffAddr)
    ensures r.base == ea.base && r.index == ea.index
    ensures HasComponent(ea) ==> HasComponent(r)
    ensures r.offset.Some? ==> r.offset == ea.offset
    ensures r.offset.None? && ea.offset.Some? ==> ea.offset.value == 0
    ensures r.offset.Some? && (r.base.Some? || r.index.Some?) ==> r.offset.value != 0
  {
    if ea.offset.Some? && ea.offset.value == 0 && (ea.base.Some? || ea.index.Some?) then
      ea.(offset := None)
    else
      ea
  }

  /** `EffAddr::from_encoding` exactly as written (sim8086/src/parse.rs:77-158). */
  function EffAddrFromEncodingAsWritten(rm: bv8, mode: bv8, disp: seq<bv8>): (r: Result<(nat, EffAddr)>)
    requires rm < 8
    ensures r.Ok? <==> mode < 3 && |disp| >= DispLength(mode, rm)
    ensures r.Ok? ==> r.value.0 == DispLength(mode, rm)
  {
    var t :- RawEffAddr(rm, mode, disp);
    Ok((t.0, NormaliseAsWritten(t.1)))
  }

  /** `EffAddr::from_encoding` with the intended normalisation: it consumes
      `DispLength(mode, rm)` bytes and always yields an address that has a
      component; a direct address stays direct. */
  function EffAddrFromEncoding(rm: bv8, mode: bv8, disp: seq<bv8>): (r: Result<(nat, EffAddr)>)
    requires rm < 8
    ensures r.Ok? <==> mode < 3 && |disp| >= DispLength(mode, rm)
    ensures r.Ok? ==> r.value.0 == DispLength(mode, rm)
    ensures r.Ok? ==> HasComponent(r.value.1)
    ensures r.Ok? ==> IsDirect(r.value.1) == (mode == 0 && rm == 6)
  {
    var t :- RawEffAddr(rm, mode, disp);
    Ok((t.0, Normalise(t.1)))
  }

  // ---------------------------------------------------------------------------
  // Operands and instructions.

  datatype Operand =
    | Reg(reg: Register)
    | ImmByte(byte: bv8)
    | ImmWord(word: bv16)
    | MemByte(ea: EffAddr)
    | MemWord(ea: EffAddr)
    | RelOffsetByte(rel: I8)

  datatype ArithOp = ArithAdd | ArithSub | ArithCmp

  /** The sixteen conditions of the `0111cccc` jumps, in encoding order. */
  datatype JumpCond = JO | JNO | JB | JNB | JE | JNE | JBE | JNBE | JS | JNS | JP | JNP | JL | JNL | JLE | JNLE

  /** The four `111000cc` loop-family instructions, in encoding order. */
  datatype LoopKind = LOOPNZ | LOOPZ | LOOP | JCXZ

  datatype Inst =
    | MOV(dst: Operand, src: Operand)
    | ADD(dst: Operand, src: Operand)
    | SUB(dst: Operand, src: Operand)
    | CMP(dst: Operand, src: Operand)
    | Jump(cond: JumpCond, target: Operand)
    | Loop(kind: LoopKind, target: Operand)
    | HLT

  /** `ArithOps::from_opcode`: 000 is ADD, 101 SUB, 111 CMP; the other five
      arithmetic sub-opcodes of the 8086 are not supported. */
  function ArithFromOpcode(code: bv8): (r: Option<ArithOp>)
    ensures r.Some? <==> code == 0 || code == 5 || code == 7
  {
    if code == 0 then Some(ArithAdd)
    else if code == 5 then Some(ArithSub)
    else if code == 7 then Some(ArithCmp)
    else None
  }

  /** `.expect(..)` on the sub-opcode. */
  function ExpectArith(code: bv8): (r: Result<ArithOp>)
    ensures r.Ok? <==> ArithFromOpcode(code).Some?
  {
    match ArithFromOpcode(code)
    case Some(op) => Ok(op)
    case None => Panic("Expected arithmetic operation to have a valid arithmetic octal")
  }

  function NewArithmetic(op: ArithOp, op1: Operand, op2: Operand): (i: Inst)
    ensures i.ADD? || i.SUB? || i.CMP?
    ensures i.dst == op1 && i.src == op2
  {
    match op
    case ArithAdd => ADD(op1, op2)
    case ArithSub => SUB(op1, op2)
    case ArithCmp => CMP(op1, op2)
  }

  function OperandFromReg(reg: bv8, wide: bool): (op: Operand)
    requires reg < 8
    ensures op.Reg? && IsWide(op.reg) == wide && RegisterCode(op.reg) == reg
  {
    Reg(RegisterFromEncoding(reg, wide))
  }

  /** `Operand::from_rm_encoding`: a register for mod=11, otherwise a memory
      operand that is word-sized when `signExtend || wide`. */
  function OperandFromRm(signExtend: bool, wide: bool, mode: bv8, rm: bv8, disp: seq<bv8>): (r: Result<(nat, Operand)>)
    requires mode < 4 && rm < 8
    ensures r.Ok? <==> |disp| >= DispLength(mode, rm)
    ensures r.Ok? ==> r.value.0 == DispLength(mode, rm)
    ensures r.Ok? ==> (r.value.1.Reg? <==> mode == 3)
    ensures r.Ok? && mode == 3 ==> IsWide(r.value.1.reg) == wide && RegisterCode(r.value.1.reg) == rm
    ensures r.Ok? && mode != 3 ==> (r.value.1.MemWord? <==> signExtend || wide)
    ensures r.Ok? && mode != 3 ==> (r.value.1.MemByte? <==> !signExtend && !wide)
    ensures r.Ok? && mode != 3 ==> HasComponent(r.value.1.ea)
  {
    if mode == 3 then
      Ok((0, Reg(RegisterFromEncoding(rm, wide))))
    else
      var t :- EffAddrFromEncoding(rm, mode, disp);
      Ok((t.0, if signExtend || wide then MemWord(t.1) else MemByte(t.1)))
  }

  /** `Operand::from_data_encoding`: `ImmWord` for two data bytes, otherwise
      the byte as `ImmByte` (never sign-extended here). */
  function OperandFromData(signExtend: bool, wide: bool, data: seq<bv8>): (r: Result<(nat, Operand)>)
    ensures r.Ok? <==> |data| >= DataLength(signExtend, wide)
    ensures r.Ok? ==> r.value.0 == DataLength(signExtend, wide)
    ensures r.Ok? ==> (r.value.1.ImmWord? <==> !signExtend && wide)
    ensures r.Ok? ==> (r.value.1.ImmByte? <==> signExtend || !wide)
    ensures r.Ok? && r.value.1.ImmByte? ==> r.value.1.byte == data[0]
    ensures r.Ok? && r.value.1.ImmWord? ==> r.value.1.word == LeWord(data[0], data[1])
  {
    var t :- GetData(signExtend, wide, data);
    Ok((t.0, if t.0 == 1 then ImmByte(t.1 as bv8) else ImmWord(t.1)))
  }

  /** `mod_reg_rm`: the reg field names one operand and mod/rm the other; the
      d bit (0x02) clear makes the reg operand the source. */
  function ModRegRm(binary: seq<bv8>): (r: Result<(nat, Operand, Operand)>)
    ensures r.Ok? <==> |binary| >= 2 && |binary| >= 2 + DispLength(GetBits(binary[1], 0, 2), GetBits(binary[1], 5, 3))
    ensures r.Ok? ==> r.value.0 == 2 + DispLength(GetBits(binary[1], 0, 2), GetBits(binary[1], 5, 3))
  {
    var b1 :- At(binary, 0);
    var b2 :- At(binary, 1);
    var dest := GetBit(b1, 6);
    var wide := GetBit(b1, 7);
    var mode := GetBits(b2, 0, 2);
    var reg := GetBits(b2, 2, 3);
    var rm := GetBits(b2, 5, 3);
    var r1 := OperandFromReg(reg, wide);
    var t :- OperandFromRm(false, wide, mode, rm, binary[2..]);
    if !dest then Ok((2 + t.0, t.1, r1)) else Ok((2 + t.0, r1, t.1))
  }

  /** `imm_to_rm`: mod/rm destination, then the immediate; the s bit is only
      read for the arithmetic form. */
  function ImmToRm(arith: bool, binary: seq<bv8>): (r: Result<(nat, Operand, Operand)>)
    ensures r.Ok? ==> |binary| >= 2
    ensures r.Ok? ==> r.value.0 == 2 + DispLength(GetBits(binary[1], 0, 2), GetBits(binary[1], 5, 3))
                                    + DataLength(arith && GetBit(binary[0], 6), GetBit(binary[0], 7))
    ensures r.Ok? <==> |binary| >= 2 && |binary| >= 2 + DispLength(GetBits(binary[1], 0, 2), GetBits(binary[1], 5, 3))
                                    + DataLength(arith && GetBit(binary[0], 6), GetBit(binary[0], 7))
  {
    if |binary| < 2 then Panic("index out of bounds") else
    var b1 := binary[0];
    var b2 := binary[1];
    var signExtend := if arith then GetBit(b1, 6) else false;
    var wide := GetBit(b1, 7);
    var mode := GetBits(b2, 0, 2);
    var rm := GetBits(b2, 5, 3);
    ImmAfterRm(signExtend, wide, OperandFromRm(signExtend, wide, mode, rm, binary[2..]), binary)
  }

  /** The immediate that follows the mod/rm operand `d` of `ImmToRm`. */
  function ImmAfterRm(signExtend: bool, wide: bool, d: Result<(nat, Operand)>, binary: seq<bv8>): (r: Result<(nat, Operand, Operand)>)
    requires d.Ok? ==> 2 + d.value.0 <= |binary|
    ensures r.Ok? <==> d.Ok? && |binary| >= 2 + d.value.0 + DataLength(signExtend, wide)
    ensures r.Ok? ==> r.value.0 == 2 + d.value.0 + DataLength(signExtend, wide)
  {
    var d :- d;
    var i :- OperandFromData(signExtend, wide, binary[2 + d.0..]);
    Ok((2 + d.0 + i.0, d.1, i.1))
  }

  /** `const_with_acc` as written: the accumulator against an immediate or a
      direct memory address, whose width follows the w bit, so that the byte
      forms `mov al, [addr]` and `mov [addr], al` read a one-byte address. */
  function ConstWithAccAsWritten(flip: bool, isMem: bool, binary: seq<bv8>): (r: Result<(nat, Operand, Operand)>)
    ensures r.Ok? ==> |binary| >= 1
    ensures r.Ok? <==> |binary| >= 1 && |binary| >= 1 + DataLength(false, binary[0] & 1 != 0)
    ensures r.Ok? ==> r.value.0 == 1 + DataLength(false, binary[0] & 1 != 0)
  {
    var b1 :- At(binary, 0);
    var wide := GetBit(b1, 7);
    var t :- GetData(false, wide, binary[1..]);
    var acc := Reg(if wide then AX else AL);
    var constant :=
      if isMem || flip then
        var addr := EffAddr(None, None, Some(SignedWord(t.1)));
        if wide then MemWord(addr) else MemByte(addr)
      else
        if wide then ImmWord(t.1) else ImmByte(t.1 as bv8);
    if flip then Ok((1 + t.0, constant, acc)) else Ok((1 + t.0, acc, constant))
  }

  /** The number of bytes that follow the opcode of an accumulator form: a
      memory address is always two bytes (Table 4-12, `addr-low addr-high`),
      immediate data follows the w bit. */
  function AccOperandLength(isMem: bool, wide: bool): nat
  {
    if isMem || wide then 2 else 1
  }

  /** `const_with_acc` as intended: the memory forms read a two-byte address
      whatever the w bit says, the immediate forms read `w ? 2 : 1` bytes. */
  function ConstWithAcc(flip: bool, isMem: bool, binary: seq<bv8>): (r: Result<(nat, Operand, Operand)>)
    ensures r.Ok? ==> |binary| >= 1
    ensures r.Ok? <==> |binary| >= 1 && |binary| >= 1 + AccOperandLength(isMem || flip, binary[0] & 1 != 0)
    ensures r.Ok? ==> r.value.0 == 1 + AccOperandLength(isMem || flip, binary[0] & 1 != 0)
    ensures r.Ok? ==> (if flip then r.value.2 else r.value.1) == Reg(if binary[0] & 1 != 0 then AX else AL)
  {
    var b1 :- At(binary, 0);
    var wide := GetBit(b1, 7);
    var acc := Reg(if wide then AX else AL);
    if isMem || flip then
      var t :- GetData(false, true, binary[1..]);
      var addr := EffAddr(None, None, Some(SignedWord(t.1)));
      var constant := if wide then MemWord(addr) else MemByte(addr);
      if flip then Ok((1 + t.0, constant, acc)) else Ok((1 + t.0, acc, constant))
    else
      var t :- GetData(false, wide, binary[1..]);
      var constant := if wide then ImmWord(t.1) else ImmByte(t.1 as bv8);
      Ok((1 + t.0, acc, constant))
  }

  /** The `conds` table of `new_jmp`, indexed by the low nibble. */
  function JumpCondFromCode(code: bv8): JumpCond
    requires code < 16
  {
    [JO, JNO, JB, JNB, JE, JNE, JBE, JNBE, JS, JNS, JP, JNP, JL, JNL, JLE, JNLE][code as int]
  }

  /** The table of `new_loop`, indexed by the low two bits. */
  function LoopKindFromCode(code: bv8): LoopKind
    requires code < 4
  {
    [LOOPNZ, LOOPZ, LOOP, JCXZ][code as int]
  }

  /** `Inst::new_jmp`: the condition is the low nibble of the opcode, the
      operand the signed byte that follows. */
  function NewJmp(binary: seq<bv8>): (r: Result<(nat, Inst)>)
    ensures r.Ok? <==> |binary| >= 2
    ensures r.Ok? ==> r.value.0 == 2 && r.value.1.Jump?
    ensures r.Ok? ==> r.value.1.target == RelOffsetByte(SignedByte(binary[1]))
  {
    var b0 :- At(binary, 0);
    var b1 :- At(binary, 1);
    var data := RelOffsetByte(SignedByte(b1));
    Ok((2, Jump(JumpCondFromCode(GetBits(b0, 4, 4)), data)))
  }

  /** `Inst::new_loop`: the kind is the low two bits of the opcode. */
  function NewLoop(binary: seq<bv8>): (r: Result<(nat, Inst)>)
    ensures r.Ok? <==> |binary| >= 2
    ensures r.Ok? ==> r.value.0 == 2 && r.value.1.Loop?
    ensures r.Ok? ==> r.value.1.target == RelOffsetByte(SignedByte(binary[1]))
  {
    var b0 :- At(binary, 0);
    var b1 :- At(binary, 1);
    var data := RelOffsetByte(SignedByte(b1));
    Ok((2, Loop(LoopKindFromCode(GetBits(b0, 6, 2)), data)))
  }

  /** `Inst::from_encoding`: a first-match-wins chain of tests on the first
      byte, each test followed by the decoding of its form (the functions
      below, one per branch). The accumulator forms and the effective
      addresses use the intended `ConstWithAcc` and `Normalise` (see the
      as-written members). */
  function FromEncoding(binary: seq<bv8>): (r: Result<Option<(nat, Inst)>>)
    ensures |binary| == 0 ==> r.Panic?
    ensures r.Ok? && r.value.Some? ==> 1 <= r.value.value.0 <= |binary|
  {
    var byte :- At(binary, 0);
    if byte == 0xF4 then Ok(Some((1, HLT)))
    else if GetBits(byte, 0, 6) == 0x22 then DecodeMovRmReg(binary)
    else if GetBits(byte, 0, 4) == 0xB then DecodeMovImmReg(binary)
    else if GetBits(byte, 0, 7) == 0x63 then DecodeMovImmRm(binary)
    else if GetBits(byte, 0, 7) == 0x50 then DecodeAccMov(false, binary)
    else if GetBits(byte, 0, 7) == 0x51 then DecodeAccMov(true, binary)
    else if GetBits(byte, 0, 2) == 0 && !GetBit(byte, 5) then DecodeArithRmReg(binary)
    else if GetBits(byte, 0, 6) == 0x20 then DecodeArithImmRm(binary)
    else if GetBits(byte, 0, 2) == 0 && GetBits(byte, 5, 2) == 2 then DecodeArithAcc(binary)
    else if GetBits(byte, 0, 4) == 0x7 then DecodeJump(binary)
    else if GetBits(byte, 0, 6) == 0x38 then DecodeLoop(binary)
    else Ok(None)
  }

  /** `MOV` register/memory to or from register (`100010dw`). */
  function DecodeMovRmReg(binary: seq<bv8>): Result<Option<(nat, Inst)>>
  {
    var t :- ModRegRm(binary);
    Ok(Some((t.0, MOV(t.1, t.2))))
  }

  /** `MOV` immediate to register (`1011wrrr`). */
  function DecodeMovImmReg(binary: seq<bv8>): Result<Option<(nat, Inst)>>
    requires |binary| >= 1
  {
    var byte := binary[0];
    var wide := GetBit(byte, 4);
    var reg := GetBits(byte, 5, 3);
    var dest := OperandFromReg(reg, wide);
    var d :- OperandFromData(false, wide, binary[1..]);
    Ok(Some((1 + d.0, MOV(dest, d.1))))
  }

  /** `MOV` immediate to register/memory (`1100011w`). */
  function DecodeMovImmRm(binary: seq<bv8>): Result<Option<(nat, Inst)>>
  {
    var t :- ImmToRm(false, binary);
    Ok(Some((t.0, MOV(t.1, t.2))))
  }

  /** `MOV` memory to accumulator (`1010000w`) or, flipped, accumulator to
      memory (`1010001w`). */
  function DecodeAccMov(flip: bool, binary: seq<bv8>): Result<Option<(nat, Inst)>>
  {
    var t :- ConstWithAcc(flip, true, binary);
    Ok(Some((t.0, MOV(t.1, t.2))))
  }

  /** Arithmetic register/memory with register (`00ooo0dw`). */
  function DecodeArithRmReg(binary: seq<bv8>): Result<Option<(nat, Inst)>>
    requires |binary| >= 1
  {
    var arith :- ExpectArith(GetBits(binary[0], 2, 3));
    var t :- ModRegRm(binary);
    Ok(Some((t.0, NewArithmetic(arith, t.1, t.2))))
  }

  /** Arithmetic immediate to register/memory (`100000sw`); the sub-opcode
      is the reg field of the second byte. */
  function DecodeArithImmRm(binary: seq<bv8>): Result<Option<(nat, Inst)>>
  {
    var b1 :- At(binary, 1);
    var arith :- ExpectArith(GetBits(b1, 2, 3));
    var t :- ImmToRm(true, binary);
    Ok(Some((t.0, NewArithmetic(arith, t.1, t.2))))
  }

  /** Arithmetic immediate with accumulator (`00ooo10w`). */
  function DecodeArithAcc(binary: seq<bv8>): Result<Option<(nat, Inst)>>
    requires |binary| >= 1
  {
    var arith :- ExpectArith(GetBits(binary[0], 2, 3));
    var t :- ConstWithAcc(false, false, binary);
    Ok(Some((t.0, NewArithmetic(arith, t.1, t.2))))
  }

  /** The conditional jumps (`0111cccc`). */
  function DecodeJump(binary: seq<bv8>): Result<Option<(nat, Inst)>>
  {
    var t :- NewJmp(binary);
    Ok(Some(t))
  }

  /** The loop family (`111000cc`). */
  function DecodeLoop(binary: seq<bv8>): Result<Option<(nat, Inst)>>
  {
    var t :- NewLoop(binary);
    Ok(Some(t))
  }

  // ---------------------------------------------------------------------------
  // The decoder as written.

  /** A memory operand whose address has the displacement 0, which the
      as-written normalisation drops. */
  predicate ZeroOffset(op: Operand)
  {
    (op.MemByte? || op.MemWord?) && op.ea.offset == Some(0)
  }

  /** An instruction with an operand whose displacement is 0. */
  predicate HasZeroOffset(i: Inst)
  {
    (i.MOV? || i.ADD? || i.SUB? || i.CMP?) && (ZeroOffset(i.dst) || ZeroOffset(i.src))
  }

  /** A memory operand with its address normalised as written. */
  function OperandAsWritten(op: Operand): Operand
  {
    match op
    case MemByte(ea) => MemByte(NormaliseAsWritten(ea))
    case MemWord(ea) => MemWord(NormaliseAsWritten(ea))
    case _ => op
  }

  /** An instruction with every address normalised as written. */
  function InstAsWritten(i: Inst): Inst
  {
    match i
    case MOV(d, s) => MOV(OperandAsWritten(d), OperandAsWritten(s))
    case ADD(d, s) => ADD(OperandAsWritten(d), OperandAsWritten(s))
    case SUB(d, s) => SUB(OperandAsWritten(d), OperandAsWritten(s))
    case CMP(d, s) => CMP(OperandAsWritten(d), OperandAsWritten(s))
    case _ => i
  }

  /** The as-written normalisation drops every displacement that the
      intended one drops, and more: applied after it, it gives what it gives
      alone. */
  lemma NormaliseAbsorbs(ea: EffAddr)
    ensures NormaliseAsWritten(Normalise(ea)) == NormaliseAsWritten(ea)
  {
  }

  /** `EffAddr::from_encoding` as written is the intended decoding followed
      by the as-written normalisation. */
  lemma EffAddrAsWrittenRenormalises(rm: bv8, mode: bv8, disp: seq<bv8>)
    requires rm < 8
    ensures var r := EffAddrFromEncoding(rm, mode, disp);
      EffAddrFromEncodingAsWritten(rm, mode, disp)
        == if r.Ok? then Ok((r.value.0, NormaliseAsWritten(r.value.1))) else r
  {
    var raw := RawEffAddr(rm, mode, disp);
    if raw.Ok? {
      NormaliseAbsorbs(raw.value.1);
    }
  }

  /** Renormalising changes an instruction exactly when one of its
      addresses has the displacement 0. */
  lemma InstAsWrittenKeeps(i: Inst)
    ensures InstAsWritten(i) == i <==> !HasZeroOffset(i)
  {
  }

  /** `MOV` memory to or from the accumulator as written. */
  function DecodeAccMovAsWritten(flip: bool, binary: seq<bv8>): Result<Option<(nat, Inst)>>
  {
    var t :- ConstWithAccAsWritten(flip, true, binary);
    Ok(Some((t.0, MOV(t.1, t.2))))
  }

  /** `Inst::from_encoding` exactly as written (sim8086/src/parse.rs:333-394).
      The accumulator MOVs (`101000dw`) read their address with
      `ConstWithAccAsWritten`. Every other branch runs the code of
      `FromEncoding`, in which only `EffAddr::from_encoding` differs, by its
      normalisation; by `EffAddrAsWrittenRenormalises` that branch's result
      is the intended one with its addresses renormalised. */
  function FromEncodingAsWritten(binary: seq<bv8>): Result<Option<(nat, Inst)>>
  {
    var byte :- At(binary, 0);
    if GetBits(byte, 0, 7) == 0x50 then DecodeAccMovAsWritten(false, binary)
    else if GetBits(byte, 0, 7) == 0x51 then DecodeAccMovAsWritten(true, binary)
    else
      var d :- FromEncoding(binary);
      Ok(if d.Some? then Some((d.value.0, InstAsWritten(d.value.1))) else None)
  }

  // ---------------------------------------------------------------------------
  // Where the code as written differs from the intended decoding.

  /** `mov ax, [0]` (8B 06 00 00): as written the zero displacement of the
      direct address is dropped, leaving an address with no component. */
  lemma DirectZeroAsWritten()
    ensures EffAddrFromEncodingAsWritten(6, 0, [0, 0]) == Ok((2, EffAddr(None, None, None)))
    ensures !HasComponent(EffAddrFromEncodingAsWritten(6, 0, [0, 0]).value.1)
  {
    assert SignedWord(LeWord(0, 0)) == 0;
  }

  /** The intended decoding keeps the direct address [0]. */
  lemma DirectZeroIntended()
    ensures EffAddrFromEncoding(6, 0, [0, 0]) == Ok((2, EffAddr(None, None, Some(0))))
  {
    assert SignedWord(LeWord(0, 0)) == 0;
  }

  /** `mov al, [16]` (A0 10 00): as written only one address byte is read, so
      the instruction is taken to be two bytes long and the next instruction
      starts at its high address byte. */
  lemma ByteAccAddressAsWritten()
    ensures ConstWithAccAsWritten(false, true, [0xA0, 0x10, 0x00]).Ok?
    ensures ConstWithAccAsWritten(false, true, [0xA0, 0x10, 0x00]).value.0 == 2
  {
  }

  /** The intended decoding reads both address bytes. */
  lemma ByteAccAddressIntended()
    ensures ConstWithAcc(false, true, [0xA0, 0x10, 0x00])
              == Ok((3, Reg(AL), MemByte(EffAddr(None, None, Some(16)))))
  {
    assert SignedWord(LeWord(0x10, 0)) == 16;
  }
}
