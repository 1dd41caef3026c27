// The simulator's mutable machine (sim8086/src/exec.rs): the register file,
// the `State` whose methods update memory, flags, the instruction pointer and
// the cycle counter in place, and `exec`'s fetch, count, execute loop. Each
// method is proved to change the state exactly as the matching function of
// Sim8086Machine says.

module Sim8086Exec {
  import opened Results
  import opened Sim8086Parse
  import opened Sim8086Encoding
  import opened Sim8086Machine

  /** `GeneralRegisters`: sixteen bytes holding AX, CX, DX, BX, SP, BP, SI
      and DI little-endian, the half registers overlaying the first four. */
  class GeneralRegisters {
    const regArray: array<bv8>

    /** `GeneralRegisters::new`: every byte zero. */
    constructor ()
      ensures regArray.Length == REGISTER_SIZE && fresh(regArray)
      ensures regArray[..] == Zeros(REGISTER_SIZE)
    {
      regArray := new bv8[REGISTER_SIZE](_ => 0);
    }

    /** `get_reg`: reads one or two bytes of the array. */
    function Get(r: Register): (v: bv16)
      reads regArray
      requires regArray.Length == REGISTER_SIZE
      ensures v == GetReg(regArray[..], r)
    {
      var (pos, wide) := RegPos(r);
      if wide then LeWord(regArray[pos], regArray[pos + 1]) else regArray[pos] as bv16
    }

    /** `set_reg`: writes the register's bytes in place. */
    method Set(r: Register, v: bv16)
      requires regArray.Length == REGISTER_SIZE
      modifies regArray
      ensures regArray[..] == SetReg(old(regArray[..]), r, v)
    {
      var (pos, wide) := RegPos(r);
      if wide {
        regArray[pos] := WordLow(v);
        regArray[pos + 1] := WordHigh(v);
      } else {
        regArray[pos] := WordLow(v);
      }
    }
  }

  /** How a method of `State` ended, against the outcome `spec` its function
      gives: the state it gives, or the same panic. */
  predicate Follows(status: Result<()>, now: Machine, spec: Result<Machine>)
  {
    match spec
    case Ok(m) => status == Ok(()) && now == m
    case Panic(msg) => status == Panic(msg)
  }

  /** `State`: the register file, 64 KiB of memory, the flags word, the
      instruction pointer and the `u32` cycle estimate. */
  class State {
    const regs: GeneralRegisters
    const memory: array<bv8>
    var iptr: nat
    var flags: bv16
    var cyclesEstimate: nat

    predicate Valid()
      reads this
    {
      regs.regArray.Length == REGISTER_SIZE && memory.Length == MEM_SIZE
      && regs.regArray != memory && cyclesEstimate < U32_LIMIT
    }

    /** The state as a value of Sim8086Machine. */
    function Snapshot(): MachineState
      reads this, regs.regArray, memory
      requires Valid()
    {
      Machine(regs.regArray[..], memory[..], iptr, flags, cyclesEstimate)
    }

    /** `State::new`: the program copied to address 0, the HLT byte 0xF4
        after it, everything else zero. */
    constructor New(program: seq<bv8>)
      requires |program| < MEM_SIZE
      ensures Valid() && Snapshot() == Initial(program)
      ensures fresh(regs) && fresh(regs.regArray) && fresh(memory)
    {
      var registers := new GeneralRegisters();
      var mem := new bv8[MEM_SIZE](_ => 0);
      var k := 0;
      while k < |program|
        invariant k <= |program|
        invariant registers.regArray[..] == Zeros(REGISTER_SIZE)
        invariant forall j :: 0 <= j < k ==> mem[j] == program[j]
        invariant forall j :: k <= j < MEM_SIZE ==> mem[j] == 0
      {
        mem[k] := program[k];
        k := k + 1;
      }
      mem[|program|] := 0xF4;
      regs := registers;
      memory := mem;
      iptr := 0;
      flags := 0;
      cyclesEstimate := 0;
      new;
      var init := Initial(program);
      assert memory[..] == init.memory by {
        forall j | 0 <= j < MEM_SIZE
          ensures memory[j] == init.memory[j]
        {
          if j < |program| {
            assert init.memory[..|program|][j] == program[j];
          }
        }
      }
    }

    /** `get_value`: registers and memory read in place, immediates as they
        are; a jump offset is not a value. */
    function GetValue(op: Operand): (r: Result<bv16>)
      reads this, regs.regArray, memory
      requires Valid()
      ensures r == Sim8086Machine.GetValue(Snapshot(), op)
    {
      match op
      case Reg(reg) => Ok(regs.Get(reg))
      case ImmByte(b) => Ok(b as bv16)
      case ImmWord(w) => Ok(w)
      case MemByte(ea) =>
        var a :- CalcAddr(regs.regArray[..], ea);
        if 0 <= a < memory.Length then Ok(memory[a] as bv16) else Panic("index out of bounds")
      case MemWord(ea) =>
        var a :- CalcAddr(regs.regArray[..], ea);
        if 0 <= a && a + 1 < memory.Length then Ok(LeWord(memory[a], memory[a + 1]))
        else Panic("index out of bounds")
      case RelOffsetByte(_) => Panic("not yet implemented")
    }

    /** `set_value`: a register through `set_reg`, or one or two memory
        bytes written in place; an immediate cannot be written. */
    method SetValue(op: Operand, v: bv16) returns (status: Result<()>)
      requires Valid()
      modifies regs.regArray, memory
      ensures Valid()
      ensures Follows(status, Snapshot(), Sim8086Machine.SetValue(old(Snapshot()), op, v))
    {
      match op
      case Reg(reg) =>
        regs.Set(reg, v);
        return Ok(());
      case MemByte(ea) =>
        var a :- CalcAddr(regs.regArray[..], ea);
        if !(0 <= a < memory.Length) {
          return Panic("index out of bounds");
        }
        memory[a] := WordLow(v);
        return Ok(());
      case MemWord(ea) =>
        var a :- CalcAddr(regs.regArray[..], ea);
        if !(0 <= a < memory.Length) || !(a + 1 < memory.Length) {
          return Panic("index out of bounds");
        }
        memory[a] := WordLow(v);
        memory[a + 1] := WordHigh(v);
        return Ok(());
      case _ =>
        return Panic("Can't set an immediate value");
    }

    /** `set_flag`. */
    method SetFlag(flag: Flag)
      requires Valid()
      modifies this
      ensures Valid() && Snapshot() == old(Snapshot()).(flags := WithFlag(old(flags), flag, true))
    {
      flags := flags | FlagBit(flag);
    }

    /** `unset_flag`. */
    method UnsetFlag(flag: Flag)
      requires Valid()
      modifies this
      ensures Valid() && Snapshot() == old(Snapshot()).(flags := WithFlag(old(flags), flag, false))
    {
      flags := flags & !FlagBit(flag);
    }

    /** `is_set`. */
    function IsSet(flag: Flag): bool
      reads this
    {
      FlagIsSet(flags, flag)
    }

    /** `update_flags_from_value`: Zero, Signed and Parity from `v` by
        `set_flag` and `unset_flag`. */
    method UpdateFlagsFromValue(v: bv16)
      requires Valid()
      modifies this
      ensures Valid() && Snapshot() == old(Snapshot()).(flags := UpdateFlags(old(flags), v))
    {
      if v == 0 {
        SetFlag(Zero);
      } else {
        UnsetFlag(Zero);
      }
      if v > 0x7FFF {
        SetFlag(Signed);
      } else {
        UnsetFlag(Signed);
      }
      if EvenParity(v) {
        SetFlag(Parity);
      } else {
        UnsetFlag(Parity);
      }
    }

    /** `jump`: when `condition` holds, sets the instruction pointer to an
        immediate or moves it by a relative offset. */
    method Jump(op: Operand, condition: bool) returns (status: Result<()>)
      requires Valid()
      modifies this
      ensures Valid() && Follows(status, Snapshot(), JumpTo(old(Snapshot()), op, condition))
    {
      if condition {
        match op
        case Reg(_) =>
          return Panic("Cannot jump to a register");
        case ImmByte(v) =>
          iptr := v as nat;
        case ImmWord(v) =>
          iptr := v as nat;
        case MemByte(_) =>
          return Panic("Cannot jump to memory");
        case MemWord(_) =>
          return Panic("Cannot jump to memory");
        case RelOffsetByte(x) =>
          if iptr + x < 0 {
            return Panic("iptr addtion overflowed");
          }
          iptr := iptr + x;
      }
      return Ok(());
    }

    /** `next_instr`: decodes the memory from the instruction pointer on and
        moves the pointer past the instruction. */
    method NextInstr() returns (r: Result<Option<Inst>>)
      requires Valid()
      modifies this
      ensures Valid()
      ensures match Sim8086Machine.NextInstr(old(Snapshot()))
        case Panic(msg) => r == Panic(msg)
        case Ok(None) => r == Ok(None) && Snapshot() == old(Snapshot())
        case Ok(Some((m, inst))) => r == Ok(Some(inst)) && Snapshot() == m
    {
      if iptr > memory.Length {
        return Panic("range start index out of range");
      }
      var d :- FromEncoding(memory[iptr..]);
      match d
      case None =>
        return Ok(None);
      case Some((n, inst)) =>
        iptr := iptr + n;
        return Ok(Some(inst));
    }

    /** `dec`: the operand less one, wrapping. */
    method Dec(op: Operand) returns (status: Result<()>)
      requires Valid()
      modifies regs.regArray, memory
      ensures Valid() && Follows(status, Snapshot(), Sim8086Machine.Dec(old(Snapshot()), op))
    {
      var v :- GetValue(op);
      status := SetValue(op, WrappingSub(v, 1));
    }

    /** `estimate_cycles`: adds the instruction's cost to the counter. */
    method EstimateCycles(inst: Inst) returns (status: Result<()>)
      requires Valid()
      modifies this
      ensures Valid() && Follows(status, Snapshot(), Sim8086Machine.EstimateCycles(old(Snapshot()), inst))
    {
      var cycles :- CycleCost(Snapshot(), inst);
      if cyclesEstimate + cycles >= U32_LIMIT {
        return Panic("attempt to add with overflow");
      }
      cyclesEstimate := cyclesEstimate + cycles;
      return Ok(());
    }

    /** The body of `exec`'s match for one instruction. */
    method Execute(inst: Inst) returns (status: Result<()>)
      requires Valid()
      modifies this, regs.regArray, memory
      ensures Valid() && Follows(status, Snapshot(), Sim8086Machine.Execute(old(Snapshot()), inst))
    {
      match inst
      case MOV(d, s) =>
        var v :- GetValue(s);
        status := SetValue(d, v);
      case ADD(d, s) =>
        status := Arith(d, s, WrappingAdd, true);
      case SUB(d, s) =>
        status := Arith(d, s, WrappingSub, true);
      case CMP(d, s) =>
        status := Arith(d, s, WrappingSub, false);
      case Jump(c, t) =>
        if c != JNE {
          return Panic("not yet implemented");
        }
        status := Jump(t, !IsSet(Zero));
      case Loop(k, t) =>
        if k != LOOP {
          return Panic("not yet implemented");
        }
        LoopIsDecThenJump(Snapshot(), t);
        var decremented := Dec(Reg(CX));
        status := Jump(t, regs.Get(CX) != 0);
      case HLT =>
        return Ok(());
    }

    /** ADD, SUB and CMP: the result of `op` on the two operands, stored in
        the destination unless this is CMP, sets the flags. */
    method Arith(dst: Operand, src: Operand, op: (bv16, bv16) -> bv16, store: bool) returns (status: Result<()>)
      requires Valid()
      modifies this, regs.regArray, memory
      ensures Valid() && Follows(status, Snapshot(), Sim8086Machine.Arith(old(Snapshot()), dst, src, op, store))
    {
      var a :- GetValue(dst);
      var b :- GetValue(src);
      var v := op(a, b);
      if store {
        var stored :- SetValue(dst, v);
      }
      UpdateFlagsFromValue(v);
      return Ok(());
    }

    /** One turn of `exec`'s loop: whether the loop goes on. */
    method Step() returns (r: Result<bool>)
      requires Valid()
      modifies this, regs.regArray, memory
      ensures Valid()
      ensures match Sim8086Machine.Step(old(Snapshot()))
        case Panic(msg) => r == Panic(msg)
        case Ok((m, more)) => r == Ok(more) && Snapshot() == m
    {
      var next :- NextInstr();
      match next
      case None =>
        return Ok(false);
      case Some(inst) =>
        var counted :- EstimateCycles(inst);
        if inst.HLT? {
          return Ok(false);
        }
        var executed :- Execute(inst);
        return Ok(true);
    }

    /** `step` as the first turn of a run with `left + 1` turns to go: how
        the run from here ends, or where it goes on with `left` to go. */
    method Turn(ghost left: nat, ghost goal: Result<(MachineState, bool)>) returns (r: Result<bool>)
      requires Valid()
      requires goal == Run<MachineState>(Sim8086Machine.Step, Snapshot(), left + 1)
      modifies this, regs.regArray, memory
      ensures Valid()
      ensures r.Panic? ==> goal == Panic(r.msg)
      ensures r == Ok(false) ==> goal == Ok((Snapshot(), true))
      ensures r == Ok(true) ==> goal == Run<MachineState>(Sim8086Machine.Step, Snapshot(), left)
    {
      ghost var before := Snapshot();
      r := Step();
      match r
      case Panic(msg) =>
        RunPanics<MachineState>(Sim8086Machine.Step, before, left + 1);
      case Ok(false) =>
        RunStops<MachineState>(Sim8086Machine.Step, before, left + 1);
      case Ok(true) =>
        RunAdvances<MachineState>(Sim8086Machine.Step, before, left + 1);
    }
  }

  /** `exec`: loads the binary and steps until a halt, a panic or the fuel
      runs out; the outcome is the one `Run` gives from the initial state. */
  method Exec(binary: seq<bv8>, fuel: nat) returns (r: Result<(State, bool)>)
    ensures |binary| >= MEM_SIZE ==> r.Panic?
    ensures |binary| < MEM_SIZE ==>
      match Run<MachineState>(Step, Initial(binary), fuel)
      case Panic(msg) => r == Panic(msg)
      case Ok((m, halted)) => r.Ok? && r.value.1 == halted && r.value.0.Valid() && r.value.0.Snapshot() == m
  {
    if |binary| >= MEM_SIZE {
      return Panic("index out of bounds");
    }
    var state := new State.New(binary);
    ghost var init := state.Snapshot();
    RunOf<MachineState>(Step, init, Initial(binary), fuel);
    ghost var goal := Run<MachineState>(Step, init, fuel);
    var left := fuel;
    while left > 0
      invariant state.Valid()
      invariant goal == Run<MachineState>(Step, state.Snapshot(), left)
    {
      left := left - 1;
      var more := state.Turn(left, goal);
      match more
      case Panic(msg) =>
        return Panic(msg);
      case Ok(false) =>
        return Ok((state, true));
      case Ok(true) =>
    }
    return Ok((state, false));
  }
}
