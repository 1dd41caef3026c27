// The 8086 machine state and the meaning of each step of the simulator
// (sim8086/src/exec.rs), as functions on values. The classes of
// Sim8086Exec change their fields exactly as these functions say.

module Sim8086Machine {
  import opened Results
  import opened Sim8086Parse
  import opened Sim8086Encoding
  import opened Sim8086Text

  /** Eight 16-bit registers, byte by byte. */
  const REGISTER_SIZE: nat := 16
  /** The 64 KiB address space. */
  const MEM_SIZE: nat := 0x10000
  /** One past the largest `u32`: the cycle counter's range. */
  const U32_LIMIT: nat := 0x1_0000_0000

  /** The flag bits, at the positions the 8086 FLAGS register uses. */
  const PARITY: bv16 := 0x04
  const ZERO: bv16 := 0x40
  const SIGNED: bv16 := 0x80
  /** Every bit but those three. */
  const OTHER_FLAGS: bv16 := 0xFF3B

  /** `Flag`, each variant standing for its bit. */
  datatype Flag = Parity | Zero | Signed

  function FlagBit(f: Flag): bv16
  {
    match f
    case Parity => PARITY
    case Zero => ZERO
    case Signed => SIGNED
  }

  datatype Machine = Machine(regs: seq<bv8>, memory: seq<bv8>, iptr: nat, flags: bv16, cycles: nat)

  predicate ValidMachine(m: Machine)
  {
    |m.regs| == REGISTER_SIZE && |m.memory| == MEM_SIZE && m.cycles < U32_LIMIT
  }

  // ---------------------------------------------------------------------------
  // The register file: AL, CL, DL, BL are the low bytes and AH, CH, DH, BH
  // the high bytes of AX, CX, DX, BX.

  /** `GeneralRegisters::reg_pos`: the first byte of a register and whether
      it is two bytes wide. */
  function RegPos(r: Register): (p: (nat, bool))
    ensures p.1 == IsWide(r)
    ensures p.0 + (if p.1 then 2 else 1) <= REGISTER_SIZE
  {
    match r
    case AL => (0, false) case CL => (2, false) case DL => (4, false) case BL => (6, false)
    case AH => (1, false) case CH => (3, false) case DH => (5, false) case BH => (7, false)
    case AX => (0, true) case CX => (2, true) case DX => (4, true) case BX => (6, true)
    case SP => (8, true) case BP => (10, true) case SI => (12, true) case DI => (14, true)
  }

  /** Whether byte `k` of the register file belongs to `r`. */
  predicate Covers(r: Register, k: nat)
  {
    var (p, wide) := RegPos(r);
    k == p || (wide && k == p + 1)
  }

  /** `get_reg`: a wide register little-endian, a half register zero-extended. */
  function GetReg(regs: seq<bv8>, r: Register): bv16
    requires |regs| == REGISTER_SIZE
  {
    var (p, wide) := RegPos(r);
    if wide then LeWord(regs[p], regs[p + 1]) else regs[p] as bv16
  }

  /** `set_reg`: a wide register's two bytes little-endian, or a half
      register's one byte, the low byte of `v`. */
  function SetReg(regs: seq<bv8>, r: Register, v: bv16): (s: seq<bv8>)
    requires |regs| == REGISTER_SIZE
    ensures |s| == REGISTER_SIZE
    ensures forall k :: 0 <= k < REGISTER_SIZE && !Covers(r, k) ==> s[k] == regs[k]
  {
    var (p, wide) := RegPos(r);
    if wide then regs[p := WordLow(v)][p + 1 := WordHigh(v)] else regs[p := WordLow(v)]
  }

  /** A register reads back what was written to it, cut to its width. */
  lemma SetGetSame(regs: seq<bv8>, r: Register, v: bv16)
    requires |regs| == REGISTER_SIZE
    ensures GetReg(SetReg(regs, r, v), r) == if IsWide(r) then v else v & 0xFF
  {
    var (p, wide) := RegPos(r);
    if wide {
      WideWriteRead(regs, p, v);
    } else {
      NarrowWriteRead(regs, p, v);
    }
  }

  lemma WideWriteRead(regs: seq<bv8>, p: nat, v: bv16)
    requires p + 1 < |regs|
    ensures var s := regs[p := WordLow(v)][p + 1 := WordHigh(v)]; LeWord(s[p], s[p + 1]) == v
  {
    WordRoundTrip(v);
  }

  lemma NarrowWriteRead(regs: seq<bv8>, p: nat, v: bv16)
    requires p < |regs|
    ensures regs[p := WordLow(v)][p] as bv16 == v & 0xFF
  {
  }

  /** Writing one register leaves every register that shares no byte with it
      as it was. */
  lemma SetGetOther(regs: seq<bv8>, r: Register, s: Register, v: bv16)
    requires |regs| == REGISTER_SIZE
    requires forall k :: Covers(r, k) ==> !Covers(s, k)
    ensures GetReg(SetReg(regs, r, v), s) == GetReg(regs, s)
  {
    var (p, wide) := RegPos(s);
    assert !Covers(r, p);
    if wide {
      assert !Covers(r, p + 1);
    }
  }

  /** The half registers overlay the wide ones: writing AL changes only
      the low byte of AX. */
  lemma HalfOverlaysWide(regs: seq<bv8>, v: bv16)
    requires |regs| == REGISTER_SIZE
    ensures GetReg(SetReg(regs, AL, v), AX) == (GetReg(regs, AX) & 0xFF00) | (v & 0xFF)
  {
  }

  // ---------------------------------------------------------------------------
  // `State::new`.

  function Zeros(n: nat): (s: seq<bv8>)
    ensures |s| == n && forall k :: 0 <= k < n ==> s[k] == 0
  {
    seq(n, _ => 0)
  }

  /** The machine before the first step: the program at address 0, a HLT
      byte right after it, every other byte, register and flag zero. */
  function Initial(program: seq<bv8>): (m: Machine)
    requires |program| < MEM_SIZE
    ensures ValidMachine(m)
    ensures m.memory[..|program|] == program && m.memory[|program|] == 0xF4
    ensures forall k :: |program| < k < MEM_SIZE ==> m.memory[k] == 0
    ensures forall k :: 0 <= k < REGISTER_SIZE ==> m.regs[k] == 0
    ensures m.iptr == 0 && m.flags == 0 && m.cycles == 0
  {
    var memory := program + [0xF4] + Zeros(MEM_SIZE - |program| - 1);
    assert memory[..|program|] == program;
    Machine(Zeros(REGISTER_SIZE), memory, 0, 0, 0)
  }

  // ---------------------------------------------------------------------------
  // Operands.

  predicate InI16(x: int) { -0x8000 <= x < 0x8000 }

  /** `calc_addr`: base, index and displacement added as `i16` values,
      which panics on overflow in a debug build; there is no wrap-around
      modulo 65536. The sum is then cast to `usize`, so a negative one
      becomes an address far past the memory. */
  function CalcAddr(regs: seq<bv8>, ea: EffAddr): (r: Result<int>)
    requires |regs| == REGISTER_SIZE
    ensures r.Ok? ==> InI16(r.value)
    ensures r.Ok? ==> r.value == BaseValue(regs, ea) + IndexValue(regs, ea) + (if ea.offset.Some? then ea.offset.value else 0)
    ensures r.Panic? <==> !InI16(BaseValue(regs, ea) + IndexValue(regs, ea))
                          || !InI16(BaseValue(regs, ea) + IndexValue(regs, ea) + (if ea.offset.Some? then ea.offset.value else 0))
  {
    var b := BaseValue(regs, ea);
    var i := IndexValue(regs, ea);
    var o := if ea.offset.Some? then ea.offset.value else 0;
    if !InI16(b + i) || !InI16(b + i + o) then Panic("attempt to add with overflow")
    else Ok(b + i + o)
  }

  /** The base register read as `i16`, or 0. */
  function BaseValue(regs: seq<bv8>, ea: EffAddr): I16
    requires |regs| == REGISTER_SIZE
  {
    if ea.base.Some? then SignedWord(GetReg(regs, ea.base.value)) else 0
  }

  /** The index register read as `i16`, or 0. */
  function IndexValue(regs: seq<bv8>, ea: EffAddr): I16
    requires |regs| == REGISTER_SIZE
  {
    if ea.index.Some? then SignedWord(GetReg(regs, ea.index.value)) else 0
  }

  /** `memory[a]`, which panics past the end. */
  function Load(memory: seq<bv8>, a: int): (r: Result<bv8>)
    ensures r.Ok? <==> 0 <= a < |memory|
    ensures r.Ok? ==> r.value == memory[a]
  {
    if 0 <= a < |memory| then Ok(memory[a]) else Panic("index out of bounds")
  }

  /** `get_value`: registers and memory read at their width, a byte
      immediate zero-extended; a jump offset is not a value. */
  function GetValue(m: Machine, op: Operand): (r: Result<bv16>)
    requires ValidMachine(m)
    ensures op.RelOffsetByte? ==> r.Panic?
    ensures op.ImmByte? ==> r == Ok(op.byte as bv16)
    ensures op.ImmWord? ==> r == Ok(op.word)
    ensures op.Reg? ==> r == Ok(GetReg(m.regs, op.reg))
  {
    match op
    case Reg(reg) => Ok(GetReg(m.regs, reg))
    case ImmByte(b) => Ok(b as bv16)
    case ImmWord(w) => Ok(w)
    case MemByte(ea) =>
      var a :- CalcAddr(m.regs, ea);
      var b :- Load(m.memory, a);
      Ok(b as bv16)
    case MemWord(ea) =>
      var a :- CalcAddr(m.regs, ea);
      var lo :- Load(m.memory, a);
      var hi :- Load(m.memory, a + 1);
      Ok(LeWord(lo, hi))
    case RelOffsetByte(_) => Panic("not yet implemented")
  }

  /** `set_value`: a register through `SetReg`, one memory byte or two
      little-endian ones; an immediate cannot be written. */
  function SetValue(m: Machine, op: Operand, v: bv16): (r: Result<Machine>)
    requires ValidMachine(m)
    ensures r.Ok? ==> ValidMachine(r.value) && r.value.iptr == m.iptr && r.value.flags == m.flags && r.value.cycles == m.cycles
    ensures (op.ImmByte? || op.ImmWord? || op.RelOffsetByte?) ==> r.Panic?
    ensures op.Reg? ==> r == Ok(m.(regs := SetReg(m.regs, op.reg, v)))
  {
    match op
    case Reg(reg) => Ok(m.(regs := SetReg(m.regs, reg, v)))
    case MemByte(ea) =>
      var a :- CalcAddr(m.regs, ea);
      var _ :- Load(m.memory, a);
      Ok(m.(memory := m.memory[a := WordLow(v)]))
    case MemWord(ea) =>
      var a :- CalcAddr(m.regs, ea);
      var _ :- Load(m.memory, a);
      var _ :- Load(m.memory, a + 1);
      Ok(m.(memory := m.memory[a := WordLow(v)][a + 1 := WordHigh(v)]))
    case _ => Panic("Can't set an immediate value")
  }

  /** A memory write touches the operand's bytes and nothing else. */
  lemma SetMemoryFrame(m: Machine, op: Operand, v: bv16)
    requires ValidMachine(m) && (op.MemByte? || op.MemWord?)
    requires SetValue(m, op, v).Ok?
    ensures var a := CalcAddr(m.regs, op.ea).value;
      var m' := SetValue(m, op, v).value;
      && m'.regs == m.regs
      && 0 <= a && a + (if op.MemWord? then 2 else 1) <= MEM_SIZE
      && m'.memory[a] == WordLow(v)
      && (op.MemWord? ==> m'.memory[a + 1] == WordHigh(v))
      && forall k :: 0 <= k < MEM_SIZE && k != a && !(op.MemWord? && k == a + 1) ==> m'.memory[k] == m.memory[k]
  {
  }

  /** An operand reads back what was written to it, cut to its width. */
  lemma SetThenGet(m: Machine, op: Operand, v: bv16)
    requires ValidMachine(m) && SetValue(m, op, v).Ok?
    ensures GetValue(SetValue(m, op, v).value, op) == Ok(if OperandWide(op) then v else v & 0xFF)
  {
    match op
    case Reg(r) => SetGetSame(m.regs, r, v);
    case MemByte(ea) =>
    case MemWord(ea) => WordRoundTrip(v);
  }

  /** The width the simulator gives an operand. */
  predicate OperandWide(op: Operand)
  {
    match op
    case Reg(r) => IsWide(r)
    case ImmByte(_) => false
    case MemByte(_) => false
    case _ => true
  }

  // ---------------------------------------------------------------------------
  // Flags.

  /** The number of one bits among the low `n` bits of `b`. */
  function OnesBelow(b: bv8, n: nat): nat
    requires n <= 8
  {
    if n == 0 then 0 else OnesBelow(b, n - 1) + (if (b >> (n - 1)) & 1 == 1 then 1 else 0)
  }

  /** `u8::count_ones`. */
  function PopCount(b: bv8): (c: nat)
    ensures c <= 8
  {
    OnesBelowBound(b, 8);
    OnesBelow(b, 8)
  }

  lemma {:induction false} OnesBelowBound(b: bv8, n: nat)
    requires n <= 8
    ensures OnesBelow(b, n) <= n
  {
    if n > 0 {
      OnesBelowBound(b, n - 1);
    }
  }

  /** `is_set`: whether the flag's bit is set in the word. */
  predicate FlagIsSet(flags: bv16, f: Flag)
  {
    flags & FlagBit(f) > 0
  }

  /** Whether the low byte of `v` has an even number of one bits. */
  predicate EvenParity(v: bv16)
  {
    PopCount(WordLow(v)) % 2 == 0
  }

  /** The flags word with `f`'s bit set when `on` (`set_flag`) and cleared
      otherwise (`unset_flag`). */
  function WithFlag(flags: bv16, f: Flag, on: bool): bv16
  {
    if on then flags | FlagBit(f) else flags & !FlagBit(f)
  }

  /** `update_flags_from_value`: Zero when the value is 0, Signed when its top
      bit is set, Parity when its low byte has an even number of ones. */
  function UpdateFlags(flags: bv16, v: bv16): bv16
  {
    WithFlag(WithFlag(WithFlag(flags, Zero, v == 0), Signed, v > 0x7FFF), Parity, EvenParity(v))
  }

  /** Setting or clearing one flag decides that flag's bit and keeps every
      other bit of the word. */
  lemma WithFlagBits(flags: bv16, f: Flag, on: bool)
    ensures (WithFlag(flags, f, on) & FlagBit(f) != 0) <==> on
  {
  }

  lemma WithFlagKeeps(flags: bv16, f: Flag, on: bool)
    ensures WithFlag(flags, f, on) & OTHER_FLAGS == flags & OTHER_FLAGS
  {
  }

  /** The flags that the update does not decide keep their bits. */
  lemma OtherFlagKept(flags: bv16, f: Flag, g: Flag, on: bool)
    requires f != g
    ensures WithFlag(flags, f, on) & FlagBit(g) == flags & FlagBit(g)
  {
  }

  /** Zero is set exactly when the value is 0. */
  lemma UpdateFlagsZero(flags: bv16, v: bv16)
    ensures UpdateFlags(flags, v) & ZERO != 0 <==> v == 0
  {
    var f1 := WithFlag(flags, Zero, v == 0);
    var f2 := WithFlag(f1, Signed, v > 0x7FFF);
    WithFlagBits(flags, Zero, v == 0);
    OtherFlagKept(f1, Signed, Zero, v > 0x7FFF);
    OtherFlagKept(f2, Parity, Zero, EvenParity(v));
  }

  /** Signed is set exactly when bit 15 of the value is. */
  lemma UpdateFlagsSigned(flags: bv16, v: bv16)
    ensures UpdateFlags(flags, v) & SIGNED != 0 <==> v > 0x7FFF
  {
    var f1 := WithFlag(flags, Zero, v == 0);
    var f2 := WithFlag(f1, Signed, v > 0x7FFF);
    WithFlagBits(f1, Signed, v > 0x7FFF);
    OtherFlagKept(f2, Parity, Signed, EvenParity(v));
  }

  /** Parity is set exactly when the low byte has an even number of ones. */
  lemma UpdateFlagsParity(flags: bv16, v: bv16)
    ensures UpdateFlags(flags, v) & PARITY != 0 <==> EvenParity(v)
  {
    var f1 := WithFlag(flags, Zero, v == 0);
    var f2 := WithFlag(f1, Signed, v > 0x7FFF);
    WithFlagBits(f2, Parity, EvenParity(v));
  }

  /** Every other bit of the flags word is kept. */
  lemma UpdateFlagsKeeps(flags: bv16, v: bv16)
    ensures UpdateFlags(flags, v) & OTHER_FLAGS == flags & OTHER_FLAGS
  {
    ThreeFlagsKeep(flags, v == 0, v > 0x7FFF, EvenParity(v));
  }

  lemma ThreeFlagsKeep(flags: bv16, zero: bool, signed: bool, even: bool)
    ensures WithFlag(WithFlag(WithFlag(flags, Zero, zero), Signed, signed), Parity, even) & OTHER_FLAGS == flags & OTHER_FLAGS
  {
    var f1 := WithFlag(flags, Zero, zero);
    var f2 := WithFlag(f1, Signed, signed);
    WithFlagKeeps(flags, Zero, zero);
    WithFlagKeeps(f1, Signed, signed);
    WithFlagKeeps(f2, Parity, even);
  }

  /** `flags_as_string`: the set flags among P, Z and S, in that order. */
  function FlagsText(flags: bv16): (s: string)
    ensures |s| <= 3
    ensures ('P' in s <==> flags & PARITY != 0) && ('Z' in s <==> flags & ZERO != 0) && ('S' in s <==> flags & SIGNED != 0)
  {
    (if flags & PARITY != 0 then "P" else "")
    + (if flags & ZERO != 0 then "Z" else "")
    + (if flags & SIGNED != 0 then "S" else "")
  }

  /** A zero result sets Parity and Zero: the flags `PZ` the tests expect
      after a comparison of equal values. */
  lemma ZeroResultFlags(flags: bv16)
    requires flags & (ZERO | SIGNED | PARITY) == 0
    ensures FlagsText(UpdateFlags(flags, 0)) == "PZ"
  {
    assert PopCount(WordLow(0)) == 0;
    UpdateFlagsZero(flags, 0);
    UpdateFlagsSigned(flags, 0);
    UpdateFlagsParity(flags, 0);
  }

  // ---------------------------------------------------------------------------
  // Control flow.

  /** `jump`: when `cond` holds, moves the instruction pointer to an
      immediate or by a relative offset; a move below 0 panics; a register
      or memory target panics. Without `cond` nothing changes. */
  function JumpTo(m: Machine, op: Operand, cond: bool): (r: Result<Machine>)
    ensures !cond ==> r == Ok(m)
    ensures r.Ok? ==> r.value == m.(iptr := r.value.iptr)
    ensures cond && op.RelOffsetByte? ==>
      (r.Ok? <==> m.iptr + op.rel >= 0) && (r.Ok? ==> r.value.iptr == m.iptr + op.rel)
    ensures cond && op.ImmByte? ==> r == Ok(m.(iptr := op.byte as nat))
    ensures cond && op.ImmWord? ==> r == Ok(m.(iptr := op.word as nat))
    ensures cond && (op.Reg? || op.MemByte? || op.MemWord?) ==> r.Panic?
  {
    if !cond then Ok(m)
    else
      match op
      case Reg(_) => Panic("Cannot jump to a register")
      case ImmByte(v) => Ok(m.(iptr := v as nat))
      case ImmWord(v) => Ok(m.(iptr := v as nat))
      case MemByte(_) => Panic("Cannot jump to memory")
      case MemWord(_) => Panic("Cannot jump to memory")
      case RelOffsetByte(x) =>
        if m.iptr + x < 0 then Panic("iptr addtion overflowed") else Ok(m.(iptr := m.iptr + x))
  }

  /** `dec`: the operand less one, wrapping below zero. */
  function Dec(m: Machine, op: Operand): (r: Result<Machine>)
    requires ValidMachine(m)
    ensures r.Ok? ==> ValidMachine(r.value)
  {
    var v :- GetValue(m, op);
    SetValue(m, op, WrappingSub(v, 1))
  }

  /** LOOP: CX less one, then a jump while CX is not zero. */
  function LoopOnce(m: Machine, op: Operand): (r: Result<Machine>)
    requires ValidMachine(m)
    ensures r.Ok? ==> ValidMachine(r.value) && r.value.cycles == m.cycles
  {
    var cx := WrappingSub(GetReg(m.regs, CX), 1);
    JumpTo(m.(regs := SetReg(m.regs, CX, cx)), op, cx != 0)
  }

  /** The decrement LOOP starts with is `dec` on CX, which cannot fail; the
      jump is taken exactly when the decremented CX is not zero. */
  lemma LoopIsDecThenJump(m: Machine, op: Operand)
    requires ValidMachine(m)
    ensures Dec(m, Reg(CX)).Ok?
    ensures LoopOnce(m, op) == JumpTo(Dec(m, Reg(CX)).value, op, GetReg(Dec(m, Reg(CX)).value.regs, CX) != 0)
  {
    SetGetSame(m.regs, CX, WrappingSub(GetReg(m.regs, CX), 1));
  }

  /** `next_instr`: decodes at the instruction pointer and moves past the
      instruction before it runs. */
  function NextInstr(m: Machine): (r: Result<Option<(Machine, Inst)>>)
    ensures r.Ok? && r.value.Some? ==> r.value.value.0 == m.(iptr := r.value.value.0.iptr) && r.value.value.0.iptr > m.iptr
  {
    if m.iptr > |m.memory| then Panic("range start index out of range")
    else
      var d :- FromEncoding(m.memory[m.iptr..]);
      match d
      case None => Ok(None)
      case Some((n, i)) => Ok(Some((m.(iptr := m.iptr + n), i)))
  }

  // ---------------------------------------------------------------------------
  // Cycle estimates, after the 8086 manual's tables 2-20 and 2-21.

  /** `ea_cycles`: the cost of computing an address, by its shape; an
      address with no component, or a register pair outside the table,
      panics. */
  function EaCycles(ea: EffAddr): (r: Result<nat>)
    ensures r.Ok? <==> HasComponent(ea) && (ea.base.Some? && ea.index.Some? ==> CostedPair(ea.base.value, ea.index.value))
    ensures r.Ok? ==> 5 <= r.value <= 12
    ensures IsDirect(ea) ==> r == Ok(6)
  {
    match (ea.base, ea.index, ea.offset)
    case (None, None, Some(_)) => Ok(6)
    case (None, Some(_), None) => Ok(5)
    case (Some(_), None, None) => Ok(5)
    case (None, Some(_), Some(_)) => Ok(9)
    case (Some(_), None, Some(_)) => Ok(9)
    case (Some(BP), Some(DI), None) => Ok(7)
    case (Some(BX), Some(SI), None) => Ok(7)
    case (Some(BP), Some(SI), None) => Ok(8)
    case (Some(BX), Some(DI), None) => Ok(8)
    case (Some(BP), Some(DI), Some(_)) => Ok(11)
    case (Some(BX), Some(SI), Some(_)) => Ok(11)
    case (Some(BP), Some(SI), Some(_)) => Ok(12)
    case (Some(BX), Some(DI), Some(_)) => Ok(12)
    case _ => Panic("Invalid EffAddr")
  }

  /** The base/index pairs of the 8086's addressing modes. */
  predicate CostedPair(base: Register, index: Register)
  {
    (base == BX || base == BP) && (index == SI || index == DI)
  }

  /** Every address the decoder produces has a cost. */
  lemma DecodedEaCosted(ea: EffAddr)
    requires EncodableEa(ea)
    ensures EaCycles(ea).Ok?
  {
  }

  /** `transfer_penalty`: four cycles a transfer at an odd address. The
      `usize` cast of a negative sum keeps its parity. */
  function TransferPenalty(m: Machine, transfers: nat, ea: EffAddr): (r: Result<nat>)
    requires ValidMachine(m)
    ensures r.Ok? <==> CalcAddr(m.regs, ea).Ok?
    ensures r.Ok? ==> r.value == if CalcAddr(m.regs, ea).value % 2 == 1 then 4 * transfers else 0
  {
    var a :- CalcAddr(m.regs, ea);
    Ok(if a % 2 != 0 then transfers * 4 else 0)
  }

  /** Base cost plus address cost plus penalty. */
  function Costed(m: Machine, base: nat, transfers: nat, ea: EffAddr): Result<nat>
    requires ValidMachine(m)
  {
    var e :- EaCycles(ea);
    var p :- TransferPenalty(m, transfers, ea);
    Ok(base + e + p)
  }

  predicate IsMem(op: Operand) { op.MemByte? || op.MemWord? }

  predicate IsImm(op: Operand) { op.ImmByte? || op.ImmWord? }

  /** `r` is the charge of a memory form with base cost `base` and
      `transfers` transfers through `ea`: it panics iff the address has no
      cost or cannot be computed, and is otherwise the base plus the
      address cost plus the odd-address penalty. */
  predicate ChargedFor(m: Machine, r: Result<nat>, base: nat, transfers: nat, ea: EffAddr)
    requires ValidMachine(m)
  {
    && (r.Ok? <==> EaCycles(ea).Ok? && CalcAddr(m.regs, ea).Ok?)
    && (r.Ok? ==> r.value == base + EaCycles(ea).value + TransferPenalty(m, transfers, ea).value)
  }

  /** The cycles `estimate_cycles` charges an instruction: MOV reg,imm 4;
      reg,reg 2; reg,mem 8; mem,reg 9. ADD reg,imm 4; reg,reg 3; reg,mem 9;
      mem,reg 16; mem,imm 17. HLT 2; everything else 0. A memory form adds
      the address cost and the penalty for one transfer (MOV, ADD reg,mem)
      or two (ADD mem,reg and mem,imm). */
  function CycleCost(m: Machine, inst: Inst): (r: Result<nat>)
    requires ValidMachine(m)
    ensures !(inst.MOV? || inst.ADD?) ==> r == Ok(if inst.HLT? then 2 else 0)
    ensures (inst.MOV? || inst.ADD?) && inst.dst.Reg? && IsImm(inst.src) ==> r == Ok(4)
    ensures (inst.MOV? || inst.ADD?) && inst.dst.Reg? && inst.src.Reg? ==> r == Ok(if inst.MOV? then 2 else 3)
    ensures inst.MOV? && inst.dst.Reg? && IsMem(inst.src) ==> ChargedFor(m, r, 8, 1, inst.src.ea)
    ensures inst.MOV? && IsMem(inst.dst) && inst.src.Reg? ==> ChargedFor(m, r, 9, 1, inst.dst.ea)
    ensures inst.ADD? && inst.dst.Reg? && IsMem(inst.src) ==> ChargedFor(m, r, 9, 1, inst.src.ea)
    ensures inst.ADD? && IsMem(inst.dst) && inst.src.Reg? ==> ChargedFor(m, r, 16, 2, inst.dst.ea)
    ensures inst.ADD? && IsMem(inst.dst) && IsImm(inst.src) ==> ChargedFor(m, r, 17, 2, inst.dst.ea)
    ensures inst.MOV? && (inst.src.RelOffsetByte? || (!inst.dst.Reg? && !(IsMem(inst.dst) && inst.src.Reg?))) ==> r == Ok(0)
    ensures inst.ADD? && (inst.src.RelOffsetByte? || (!inst.dst.Reg? && !IsMem(inst.dst)) || (IsMem(inst.dst) && IsMem(inst.src))) ==> r == Ok(0)
  {
    match inst
    case MOV(d, s) =>
      if d.Reg? && (s.ImmByte? || s.ImmWord?) then Ok(4)
      else if d.Reg? && s.Reg? then Ok(2)
      else if d.Reg? && (s.MemByte? || s.MemWord?) then Costed(m, 8, 1, s.ea)
      else if (d.MemByte? || d.MemWord?) && s.Reg? then Costed(m, 9, 1, d.ea)
      else Ok(0)
    case ADD(d, s) =>
      if d.Reg? && (s.ImmByte? || s.ImmWord?) then Ok(4)
      else if d.Reg? && s.Reg? then Ok(3)
      else if d.Reg? && (s.MemByte? || s.MemWord?) then Costed(m, 9, 1, s.ea)
      else if (d.MemByte? || d.MemWord?) && s.Reg? then Costed(m, 16, 2, d.ea)
      else if (d.MemByte? || d.MemWord?) && (s.ImmByte? || s.ImmWord?) then Costed(m, 17, 2, d.ea)
      else Ok(0)
    case HLT => Ok(2)
    case _ => Ok(0)
  }

  /** `estimate_cycles`: adds the cost to the `u32` counter, which panics on
      overflow in a debug build. */
  function EstimateCycles(m: Machine, inst: Inst): (r: Result<Machine>)
    requires ValidMachine(m)
    ensures r.Ok? <==> CycleCost(m, inst).Ok? && m.cycles + CycleCost(m, inst).value < U32_LIMIT
    ensures r.Ok? ==> ValidMachine(r.value)
    ensures r.Ok? ==> r.value == m.(cycles := m.cycles + CycleCost(m, inst).value)
  {
    var c :- CycleCost(m, inst);
    if m.cycles + c >= U32_LIMIT then Panic("attempt to add with overflow")
    else Ok(m.(cycles := m.cycles + c))
  }

  // ---------------------------------------------------------------------------
  // Executing one instruction.

  /** ADD as written: an unchecked `u16` sum, which panics on a carry out
      of bit 15 in a debug build. */
  function AddAsWritten(a: bv16, b: bv16): (r: Result<bv16>)
    ensures r.Panic? <==> a as int + b as int > 0xFFFF
  {
    if a as int + b as int > 0xFFFF then Panic("attempt to add with overflow") else Ok(a + b)
  }

  /** ADD as intended: the sum modulo 2^16, as the processor computes it and
      as SUB and CMP already wrap. */
  function WrappingAdd(a: bv16, b: bv16): bv16
  {
    a + b
  }

  /** `wrapping_sub`: the difference modulo 2^16. */
  function WrappingSub(a: bv16, b: bv16): bv16
  {
    a - b
  }

  /** The sum of `add ax, 1` with AX = 0xFFFF: a panic as written, 0 as
      intended. */
  lemma AddOverflowExhibit()
    ensures AddAsWritten(0xFFFF, 1).Panic?
    ensures WrappingAdd(0xFFFF, 1) == 0
  {
  }

  /** Where the two agree: without a carry out, the sum is the same. */
  lemma AddAgreesWithoutCarry(a: bv16, b: bv16)
    requires a as int + b as int <= 0xFFFF
    ensures AddAsWritten(a, b) == Ok(WrappingAdd(a, b))
  {
  }

  /** The arithmetic of ADD, SUB and CMP: the result is stored (except by
      CMP) and sets the flags. */
  function Arith(m: Machine, dst: Operand, src: Operand, result: (bv16, bv16) -> bv16, store: bool): (r: Result<Machine>)
    requires ValidMachine(m)
    ensures r.Ok? ==> ValidMachine(r.value) && r.value.iptr == m.iptr && r.value.cycles == m.cycles
  {
    var a :- GetValue(m, dst);
    var b :- GetValue(m, src);
    var v := result(a, b);
    var m1 :- if store then SetValue(m, dst, v) else Ok(m);
    Ok(m1.(flags := UpdateFlags(m1.flags, v)))
  }

  /** The body of `exec`'s match for one instruction, after the cycles are
      counted: MOV, ADD, SUB, CMP, JNE and LOOP; the other jumps are not
      implemented and panic; HLT changes nothing. What each executed
      instruction does to the machine is stated by the lemmas below:
      MovCopies, CmpOnlyFlags, SubStores, AddStores, JneJumps and LoopCounts.
      ADD wraps here; ExecuteAsWritten keeps the code's panic on carry. */
  function Execute(m: Machine, inst: Inst): (r: Result<Machine>)
    requires ValidMachine(m)
    ensures r.Ok? ==> ValidMachine(r.value) && r.value.cycles == m.cycles
    ensures inst.HLT? ==> r == Ok(m)
    ensures (inst.Jump? && inst.cond != JNE) || (inst.Loop? && inst.kind != LOOP) ==> r.Panic?
  {
    match inst
    case MOV(d, s) =>
      var v :- GetValue(m, s);
      SetValue(m, d, v)
    case ADD(d, s) => Arith(m, d, s, WrappingAdd, true)
    case SUB(d, s) => Arith(m, d, s, WrappingSub, true)
    case CMP(d, s) => Arith(m, d, s, WrappingSub, false)
    case Jump(c, t) =>
      if c == JNE then JumpTo(m, t, !FlagIsSet(m.flags, Zero)) else Panic("not yet implemented")
    case Loop(k, t) =>
      if k == LOOP then
        LoopOnce(m, t)
      else Panic("not yet implemented")
    case HLT => Ok(m)
  }

  /** MOV stores the source's value in the destination. */
  lemma MovCopies(m: Machine, d: Operand, s: Operand)
    requires ValidMachine(m) && Execute(m, MOV(d, s)).Ok?
    ensures GetValue(Execute(m, MOV(d, s)).value, d) == Ok(if OperandWide(d) then GetValue(m, s).value else GetValue(m, s).value & 0xFF)
  {
    SetThenGet(m, d, GetValue(m, s).value);
  }

  /** The outcome of ADD, SUB or CMP: the destination, when stored, holds
      the result, and the flags are updated from it. */
  lemma ArithResult(m: Machine, d: Operand, s: Operand, result: (bv16, bv16) -> bv16, store: bool)
    requires ValidMachine(m) && Arith(m, d, s, result, store).Ok?
    ensures GetValue(m, d).Ok? && GetValue(m, s).Ok?
    ensures var v := result(GetValue(m, d).value, GetValue(m, s).value);
      && (store ==> SetValue(m, d, v).Ok?)
      && var m1 := if store then SetValue(m, d, v).value else m;
      Arith(m, d, s, result, store).value == m1.(flags := UpdateFlags(m1.flags, v))
  {
  }

  /** Reading an operand does not look at the flags. */
  lemma GetValueIgnoresFlags(m: Machine, op: Operand, flags: bv16)
    requires ValidMachine(m)
    ensures GetValue(m.(flags := flags), op) == GetValue(m, op)
  {
  }

  /** CMP changes only the flags, which it sets from the wrapped difference. */
  lemma CmpOnlyFlags(m: Machine, d: Operand, s: Operand)
    requires ValidMachine(m) && Execute(m, CMP(d, s)).Ok?
    ensures GetValue(m, d).Ok? && GetValue(m, s).Ok?
    ensures Execute(m, CMP(d, s)).value == m.(flags := UpdateFlags(m.flags, WrappingSub(GetValue(m, d).value, GetValue(m, s).value)))
  {
    ArithResult(m, d, s, WrappingSub, false);
  }

  /** SUB stores the wrapped difference and sets the flags from it. */
  lemma SubStores(m: Machine, d: Operand, s: Operand)
    requires ValidMachine(m) && Execute(m, SUB(d, s)).Ok?
    ensures GetValue(m, d).Ok? && GetValue(m, s).Ok?
    ensures var diff := WrappingSub(GetValue(m, d).value, GetValue(m, s).value);
      var m' := Execute(m, SUB(d, s)).value;
      && GetValue(m', d) == Ok(if OperandWide(d) then diff else diff & 0xFF)
      && m'.flags == UpdateFlags(m.flags, diff)
  {
    ArithStores(m, d, s, WrappingSub);
  }

  /** ADD stores the wrapped sum and sets the flags from it. */
  lemma AddStores(m: Machine, d: Operand, s: Operand)
    requires ValidMachine(m) && Execute(m, ADD(d, s)).Ok?
    ensures GetValue(m, d).Ok? && GetValue(m, s).Ok?
    ensures var sum := WrappingAdd(GetValue(m, d).value, GetValue(m, s).value);
      var m' := Execute(m, ADD(d, s)).value;
      && GetValue(m', d) == Ok(if OperandWide(d) then sum else sum & 0xFF)
      && m'.flags == UpdateFlags(m.flags, sum)
  {
    ArithStores(m, d, s, WrappingAdd);
  }

  lemma ArithStores(m: Machine, d: Operand, s: Operand, result: (bv16, bv16) -> bv16)
    requires ValidMachine(m) && Arith(m, d, s, result, true).Ok?
    ensures GetValue(m, d).Ok? && GetValue(m, s).Ok?
    ensures var v := result(GetValue(m, d).value, GetValue(m, s).value);
      var m' := Arith(m, d, s, result, true).value;
      && GetValue(m', d) == Ok(if OperandWide(d) then v else v & 0xFF)
      && m'.flags == UpdateFlags(m.flags, v)
  {
    ArithResult(m, d, s, result, true);
    var v := result(GetValue(m, d).value, GetValue(m, s).value);
    var m1 := SetValue(m, d, v).value;
    SetThenGet(m, d, v);
    GetValueIgnoresFlags(m1, d, UpdateFlags(m1.flags, v));
  }

  /** JNE jumps by its offset exactly when Zero is clear. */
  lemma JneJumps(m: Machine, x: I8)
    requires ValidMachine(m) && Execute(m, Jump(JNE, RelOffsetByte(x))).Ok?
    ensures Execute(m, Jump(JNE, RelOffsetByte(x))).value.iptr == if m.flags & ZERO == 0 then m.iptr + x else m.iptr
  {
  }

  /** LOOP decrements CX, wrapping, and jumps by its offset exactly when the
      new CX is not zero. */
  lemma LoopCounts(m: Machine, x: I8)
    requires ValidMachine(m) && Execute(m, Loop(LOOP, RelOffsetByte(x))).Ok?
    ensures var m' := Execute(m, Loop(LOOP, RelOffsetByte(x))).value;
      && GetReg(m'.regs, CX) == WrappingSub(GetReg(m.regs, CX), 1)
      && m'.iptr == if GetReg(m.regs, CX) != 1 then m.iptr + x else m.iptr
  {
    SetGetSame(m.regs, CX, WrappingSub(GetReg(m.regs, CX), 1));
  }

  // ---------------------------------------------------------------------------
  // The fetch, count, execute loop.

  /** A machine with the register file and memory of `State`. */
  type MachineState = m: Machine | ValidMachine(m) witness Machine(Zeros(REGISTER_SIZE), Zeros(MEM_SIZE), 0, 0, 0)

  /** One turn of `exec`'s loop: fetch (moving the instruction pointer),
      count cycles, execute. The second component says whether the loop goes
      on: it stops when nothing decodes and after HLT. */
  function Step(m: MachineState): (r: Result<(MachineState, bool)>)
    ensures r.Ok? ==> r.value.0.cycles >= m.cycles
    ensures r.Ok? && !r.value.1 ==> r.value.0.memory == m.memory && r.value.0.regs == m.regs
  {
    var next :- NextInstr(m);
    match next
    case None => Ok((m, false))
    case Some((m1, inst)) =>
      var m2 :- EstimateCycles(m1, inst);
      if inst.HLT? then Ok((m2, false))
      else
        var m3 :- Execute(m2, inst);
        Ok((m3, true))
  }

  /** `exec` from `s` for at most `fuel` turns of a loop whose turn is
      `step`. The flag says whether the loop stopped by itself; a program
      that jumps back forever never does. */
  function Run<S>(step: S -> Result<(S, bool)>, s: S, fuel: nat): Result<(S, bool)>
    decreases fuel, 0
  {
    if fuel == 0 then Ok((s, false)) else Continue(step, step(s), fuel - 1)
  }

  /** The rest of a run after a turn that ended in `t`. */
  function Continue<S>(step: S -> Result<(S, bool)>, t: Result<(S, bool)>, fuel: nat): Result<(S, bool)>
    decreases fuel, 1
  {
    match t
    case Panic(msg) => Panic(msg)
    case Ok((s1, more)) => if more then Run(step, s1, fuel) else Ok((s1, true))
  }

  /** More fuel does not change a run that already stopped by itself. */
  lemma {:induction false} RunStable<S>(step: S -> Result<(S, bool)>, s: S, fuel: nat, more: nat)
    requires fuel <= more
    requires Run(step, s, fuel).Ok? && Run(step, s, fuel).value.1
    ensures Run(step, s, more) == Run(step, s, fuel)
    decreases fuel
  {
    var t := step(s);
    if t.value.1 {
      RunStable(step, t.value.0, fuel - 1, more - 1);
    }
  }

  /** A turn that panics ends the run with its panic. */
  lemma RunPanics<S>(step: S -> Result<(S, bool)>, s: S, fuel: nat)
    requires fuel > 0 && step(s).Panic?
    ensures Run(step, s, fuel) == Panic(step(s).msg)
  {
  }

  /** A turn after which the loop stops ends the run there. */
  lemma RunStops<S>(step: S -> Result<(S, bool)>, s: S, fuel: nat)
    requires fuel > 0 && step(s).Ok? && !step(s).value.1
    ensures Run(step, s, fuel) == Ok((step(s).value.0, true))
  {
  }

  /** A turn after which the loop goes on leaves the run from the new state
      with one turn less. */
  lemma RunAdvances<S>(step: S -> Result<(S, bool)>, s: S, fuel: nat)
    requires fuel > 0 && step(s).Ok? && step(s).value.1
    ensures Run(step, s, fuel) == Run(step, step(s).value.0, fuel - 1)
  {
  }

  /** Runs from equal states are equal. */
  lemma RunOf<S>(step: S -> Result<(S, bool)>, s: S, t: S, fuel: nat)
    requires s == t
    ensures Run(step, s, fuel) == Run(step, t, fuel)
  {
  }

  // ---------------------------------------------------------------------------
  // The loop as written: the as-written decoder, the `print!("{inst}")` of
  // each instruction, and the unchecked ADD.

  /** The body of `exec`'s match as written: ADD takes the unchecked sum,
      which panics on a carry; every other instruction is `Execute`. */
  function ExecuteAsWritten(m: Machine, inst: Inst): (r: Result<Machine>)
    requires ValidMachine(m)
    ensures r.Ok? ==> ValidMachine(r.value) && r.value.cycles == m.cycles
  {
    match inst
    case ADD(d, s) =>
      var a :- GetValue(m, d);
      var b :- GetValue(m, s);
      var v :- AddAsWritten(a, b);
      var m1 :- SetValue(m, d, v);
      Ok(m1.(flags := UpdateFlags(m1.flags, v)))
    case _ => Execute(m, inst)
  }

  /** An ADD whose operands can be read and whose sum carries out of bit 15. */
  predicate AddCarries(m: Machine, inst: Inst)
    requires ValidMachine(m)
  {
    && inst.ADD? && GetValue(m, inst.dst).Ok? && GetValue(m, inst.src).Ok?
    && GetValue(m, inst.dst).value as int + GetValue(m, inst.src).value as int > 0xFFFF
  }

  /** The executor as written panics on a carrying ADD and otherwise does
      what `Execute` does. */
  lemma ExecuteAgrees(m: Machine, inst: Inst)
    requires ValidMachine(m)
    ensures AddCarries(m, inst) ==> ExecuteAsWritten(m, inst).Panic?
    ensures !AddCarries(m, inst) ==> ExecuteAsWritten(m, inst) == Execute(m, inst)
  {
    match inst
    case ADD(d, s) => AddAgrees(m, d, s);
    case _ =>
  }

  /** The ADD case: the unchecked sum fails on a carry and otherwise
      matches the wrapping `Arith`. */
  lemma AddAgrees(m: Machine, d: Operand, s: Operand)
    requires ValidMachine(m)
    ensures AddCarries(m, ADD(d, s)) ==> ExecuteAsWritten(m, ADD(d, s)).Panic?
    ensures !AddCarries(m, ADD(d, s)) ==> ExecuteAsWritten(m, ADD(d, s)) == Arith(m, d, s, WrappingAdd, true)
  {
    if GetValue(m, d).Panic? || GetValue(m, s).Panic? {
      AddReadFails(m, d, s);
    } else if AddCarries(m, ADD(d, s)) {
      AddCarryFails(m, d, s);
    } else {
      AddWithoutCarry(m, d, s);
    }
  }

  lemma AddReadFails(m: Machine, d: Operand, s: Operand)
    requires ValidMachine(m) && (GetValue(m, d).Panic? || GetValue(m, s).Panic?)
    ensures ExecuteAsWritten(m, ADD(d, s)) == Arith(m, d, s, WrappingAdd, true)
  {
  }

  lemma AddCarryFails(m: Machine, d: Operand, s: Operand)
    requires ValidMachine(m) && AddCarries(m, ADD(d, s))
    ensures ExecuteAsWritten(m, ADD(d, s)).Panic?
  {
  }

  lemma AddWithoutCarry(m: Machine, d: Operand, s: Operand)
    requires ValidMachine(m) && GetValue(m, d).Ok? && GetValue(m, s).Ok? && !AddCarries(m, ADD(d, s))
    ensures ExecuteAsWritten(m, ADD(d, s)) == Arith(m, d, s, WrappingAdd, true)
  {
    AddAgreesWithoutCarry(GetValue(m, d).value, GetValue(m, s).value);
  }

  /** `next_instr` with the decoder as written. */
  function NextInstrAsWritten(m: Machine): (r: Result<Option<(Machine, Inst)>>)
    ensures r.Ok? && r.value.Some? ==> r.value.value.0 == m.(iptr := r.value.value.0.iptr)
  {
    if m.iptr > |m.memory| then Panic("range start index out of range")
    else
      var d :- FromEncodingAsWritten(m.memory[m.iptr..]);
      match d
      case None => Ok(None)
      case Some((n, i)) => Ok(Some((m.(iptr := m.iptr + n), i)))
  }

  /** One turn of `exec`'s loop as written: fetch with the decoder as
      written, print the instruction (which panics where its text
      overflows), count cycles (which panics on an address with no
      component), execute with the unchecked ADD. */
  function StepAsWritten(m: MachineState): Result<(MachineState, bool)>
  {
    var next :- NextInstrAsWritten(m);
    match next
    case None => Ok((m, false))
    case Some((m1, inst)) =>
      var _ :- InstTextAsWritten(inst);
      var m2 :- EstimateCycles(m1, inst);
      if inst.HLT? then Ok((m2, false))
      else
        var m3 :- ExecuteAsWritten(m2, inst);
        Ok((m3, true))
  }

  /** A turn at `m` on which the code as written cannot part from the
      corrected turn: both decoders fetch the same, the instruction prints,
      and it is no carrying ADD. */
  predicate TurnAgrees(m: MachineState)
  {
    && NextInstrAsWritten(m) == NextInstr(m)
    && (NextInstr(m).Ok? && NextInstr(m).value.Some? ==>
          var m1 := NextInstr(m).value.value.0;
          var inst := NextInstr(m).value.value.1;
          && !InstPrintOverflows(inst)
          && (EstimateCycles(m1, inst).Ok? ==> !AddCarries(EstimateCycles(m1, inst).value, inst)))
  }

  /** Where the turns agree, the turn as written is `Step`. */
  lemma StepAgrees(m: MachineState)
    requires TurnAgrees(m)
    ensures StepAsWritten(m) == Step(m)
  {
    var next := NextInstr(m);
    if next.Ok? && next.value.Some? {
      var m1 := next.value.value.0;
      var inst := next.value.value.1;
      InstTextAgrees(inst);
      var e := EstimateCycles(m1, inst);
      if e.Ok? {
        ExecuteAgrees(e.value, inst);
      }
    }
  }

  /** The first `fuel` turns of the loop whose turn is `step`, from `s`,
      all start in states that satisfy `p`. */
  ghost predicate AlongTurns<S>(step: S -> Result<(S, bool)>, p: S -> bool, s: S, fuel: nat)
    decreases fuel
  {
    fuel == 0 || (p(s) && (step(s).Ok? && step(s).value.1 ==> AlongTurns(step, p, step(s).value.0, fuel - 1)))
  }

  /** Two turn functions that agree on every state satisfying `p` run alike
      for as long as the run of `g` stays within `p`. */
  lemma {:induction false} RunsAgreeWhere<S>(f: S -> Result<(S, bool)>, g: S -> Result<(S, bool)>, p: S -> bool, s: S, fuel: nat)
    requires forall t :: p(t) ==> f(t) == g(t)
    requires AlongTurns(g, p, s, fuel)
    ensures Run(f, s, fuel) == Run(g, s, fuel)
    decreases fuel
  {
    if fuel > 0 && g(s).Ok? && g(s).value.1 {
      RunsAgreeWhere(f, g, p, g(s).value.0, fuel - 1);
    }
  }

  /** `exec` as written runs as the corrected run for as long as every turn
      of the corrected run agrees. */
  lemma RunAgrees(m: MachineState, fuel: nat)
    requires AlongTurns(Step, TurnAgrees, m, fuel)
    ensures Run(StepAsWritten, m, fuel) == Run(Step, m, fuel)
  {
    forall t: MachineState | TurnAgrees(t)
      ensures StepAsWritten(t) == Step(t)
    {
      StepAgrees(t);
    }
    RunsAgreeWhere(StepAsWritten, Step, TurnAgrees, m, fuel);
  }

  /** `jne` with offset 126 (75 7E): the corrected turn jumps, the turn as
      written panics when it prints the instruction. */
  lemma RelOverflowTurn(m: MachineState)
    requires m.iptr + 2 <= |m.memory| && m.memory[m.iptr] == 0x75 && m.memory[m.iptr + 1] == 0x7E
    ensures Step(m).Ok? && StepAsWritten(m).Panic?
  {
    var i := Jump(JNE, RelOffsetByte(126));
    RelOverflowFetch(m);
    InstTextAgrees(i);
  }

  /** `mov ax, [0]` (8B 06 00 00): the turn as written fetches an address
      with no component and panics costing it in `ea_cycles`. */
  lemma DirectZeroTurn(m: MachineState)
    requires m.iptr + 4 <= |m.memory| && m.memory[m.iptr..m.iptr + 4] == [0x8B, 0x06, 0, 0]
    ensures StepAsWritten(m).Panic?
  {
    DirectZeroFetch(m);
    var empty := EffAddr(None, None, None);
    assert EaCycles(empty).Panic?;
  }

  /** The corrected fetch of 8B 06 00 00 is `mov ax, [0]`; the fetch as
      written drops the address's only component. */
  lemma DirectZeroFetch(m: MachineState)
    requires m.iptr + 4 <= |m.memory| && m.memory[m.iptr..m.iptr + 4] == [0x8B, 0x06, 0, 0]
    ensures NextInstr(m) == Ok(Some((m.(iptr := m.iptr + 4), MOV(Reg(AX), MemWord(EffAddr(None, None, Some(0)))))))
    ensures NextInstrAsWritten(m) == Ok(Some((m.(iptr := m.iptr + 4), MOV(Reg(AX), MemWord(EffAddr(None, None, None))))))
  {
    var bs := m.memory[m.iptr..];
    assert bs[..4] == m.memory[m.iptr..m.iptr + 4];
    DirectZeroPrefix(bs);
  }

  /** Both decoders fetch `jne` with offset 126 from 75 7E. */
  lemma RelOverflowFetch(m: MachineState)
    requires m.iptr + 2 <= |m.memory| && m.memory[m.iptr] == 0x75 && m.memory[m.iptr + 1] == 0x7E
    ensures NextInstr(m) == Ok(Some((m.(iptr := m.iptr + 2), Jump(JNE, RelOffsetByte(126)))))
    ensures NextInstrAsWritten(m) == NextInstr(m)
  {
    var i := Jump(JNE, RelOffsetByte(126));
    var bs := m.memory[m.iptr..];
    assert Encode(i) == [0x75, 0x7E];
    assert bs == Encode(i) + bs[2..];
    EncodeDecode(i, bs[2..]);
    AsWrittenAgrees(bs);
  }
}
