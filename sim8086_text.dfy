/** The assembly text of sim8086/src/parse.rs: the `Display` impls of
    `Register`, `EffAddr`, `Operand` and `Inst`, in NASM syntax, and readers
    that invert them, so that the text of an instruction determines the
    instruction. */
module Sim8086Text {
  import opened Results
  import opened Sim8086Parse
  import opened Sim8086Encoding

  // ---------------------------------------------------------------------------
  // Decimal numerals, as `{}` formats integers.

  predicate IsDigit(c: char) { '0' <= c <= '9' }

  predicate AllDigits(s: string)
  {
    forall i :: 0 <= i < |s| ==> IsDigit(s[i])
  }

  function DigitChar(d: nat): (c: char)
    requires d < 10
    ensures IsDigit(c) && (c as int) - ('0' as int) == d
  {
    (('0' as int) + d) as char
  }

  /** The decimal numeral of `n`: at least one digit and nothing else. */
  function NatText(n: nat): (s: string)
    ensures |s| >= 1 && AllDigits(s)
    decreases n
  {
    if n < 10 then [DigitChar(n)] else NatText(n / 10) + [DigitChar(n % 10)]
  }

  /** The numeral of a signed integer: a minus sign before a negative one. */
  function IntText(x: int): string
  {
    if x < 0 then "-" + NatText(-x) else NatText(x)
  }

  /** The value of a string of digits. */
  function DecimalValue(s: string): nat
    requires AllDigits(s)
    decreases |s|
  {
    if |s| == 0 then 0 else DecimalValue(s[..|s| - 1]) * 10 + ((s[|s| - 1] as int) - ('0' as int))
  }

  /** Reads a numeral with an optional leading minus sign. */
  function ReadInt(s: string): Option<int>
  {
    if |s| >= 2 && s[0] == '-' && AllDigits(s[1..]) then Some(0 - DecimalValue(s[1..]))
    else if |s| >= 1 && AllDigits(s) then Some(DecimalValue(s) as int)
    else None
  }

  /** A numeral reads back as the number it was written from. */
  lemma {:induction false} NatTextRoundTrip(n: nat)
    ensures DecimalValue(NatText(n)) == n
    decreases n
  {
    if n >= 10 {
      NatTextRoundTrip(n / 10);
      var s := NatText(n);
      assert s[..|s| - 1] == NatText(n / 10);
    }
  }

  lemma IntTextRoundTrip(x: int)
    ensures ReadInt(IntText(x)) == Some(x)
  {
    if x < 0 {
      NegativeRoundTrip(x);
    } else {
      NonNegativeRoundTrip(x);
    }
  }

  lemma NonNegativeRoundTrip(x: int)
    requires x >= 0
    ensures ReadInt(IntText(x)) == Some(x)
  {
    var s := NatText(x);
    assert IntText(x) == s;
    NatTextRoundTrip(x);
    DigitsRead(s);
  }

  lemma NegativeRoundTrip(x: int)
    requires x < 0
    ensures ReadInt(IntText(x)) == Some(x)
  {
    assert IntText(x) == "-" + NatText(-x);
    NegativeTextRoundTrip(-x);
  }

  lemma NegativeTextRoundTrip(n: nat)
    requires n > 0
    ensures ReadInt("-" + NatText(n)) == Some(-(n as int))
  {
    var s := "-" + NatText(n);
    assert s[1..] == NatText(n);
    NatTextRoundTrip(n);
  }

  /** A numeral without a sign reads as its value. */
  lemma DigitsRead(s: string)
    requires |s| >= 1 && AllDigits(s)
    ensures ReadInt(s) == Some(DecimalValue(s) as int)
  {
    assert IsDigit(s[0]);
  }

  // ---------------------------------------------------------------------------
  // Registers.

  /** `Register::to_string`: the lower-case NASM name. */
  function RegisterName(r: Register): (s: string)
    ensures |s| == 2 && 'a' <= s[0] <= 'z'
  {
    match r
    case AL => "al" case CL => "cl" case DL => "dl" case BL => "bl"
    case AH => "ah" case CH => "ch" case DH => "dh" case BH => "bh"
    case AX => "ax" case CX => "cx" case DX => "dx" case BX => "bx"
    case SP => "sp" case BP => "bp" case SI => "si" case DI => "di"
  }

  /** The register whose name is `s`, if any. */
  function ReadRegister(s: string): Option<Register>
  {
    if |s| != 2 then None
    else
      match (s[0], s[1])
      case ('a', 'l') => Some(AL) case ('c', 'l') => Some(CL) case ('d', 'l') => Some(DL) case ('b', 'l') => Some(BL)
      case ('a', 'h') => Some(AH) case ('c', 'h') => Some(CH) case ('d', 'h') => Some(DH) case ('b', 'h') => Some(BH)
      case ('a', 'x') => Some(AX) case ('c', 'x') => Some(CX) case ('d', 'x') => Some(DX) case ('b', 'x') => Some(BX)
      case ('s', 'p') => Some(SP) case ('b', 'p') => Some(BP) case ('s', 'i') => Some(SI) case ('d', 'i') => Some(DI)
      case _ => None
  }

  /** A register name reads back as its register. */
  lemma RegisterNameRoundTrip(r: Register)
    ensures ReadRegister(RegisterName(r)) == Some(r)
  {
  }

  // ---------------------------------------------------------------------------
  // Effective addresses.

  function BaseText(ea: EffAddr): string
  {
    if ea.base.Some? then RegisterName(ea.base.value) else ""
  }

  function IndexText(ea: EffAddr): string
  {
    if ea.index.Some? then " + " + RegisterName(ea.index.value) else ""
  }

  /** The displacement after a base register, as intended: the magnitude of
      a negative one is computed without overflow. */
  function OffsetText(ea: EffAddr): string
  {
    match ea.offset
    case None => ""
    case Some(o) =>
      if ea.base.Some? then
        if o < 0 then " - " + NatText(-(o as int)) else " + " + NatText(o)
      else IntText(o)
  }

  /** `impl Display for EffAddr`, with the intended `OffsetText`. */
  function EffAddrText(ea: EffAddr): string
  {
    "[" + BaseText(ea) + IndexText(ea) + OffsetText(ea) + "]"
  }

  /** `impl Display for EffAddr` as written: `offset.abs()` on an `i16`
      overflows, and panics in a debug build, for the displacement -32768
      after a base register. */
  function EffAddrTextAsWritten(ea: EffAddr): Result<string>
  {
    if ea.base.Some? && ea.offset.Some? && ea.offset.value == -0x8000 then Panic("attempt to negate with overflow")
    else Ok(EffAddrText(ea))
  }

  /** The signed tail of an address after its registers: nothing, or
      ` + n` / ` - n`. */
  function ReadOffsetTail(t: string): Option<Option<int>>
  {
    if |t| == 0 then Some(None)
    else if |t| >= 4 && t[..3] == " + " && AllDigits(t[3..]) then Some(Some(DecimalValue(t[3..]) as int))
    else if |t| >= 4 && t[..3] == " - " && AllDigits(t[3..]) then Some(Some(0 - DecimalValue(t[3..])))
    else None
  }

  /** Reads the text of an address: `[base + index ± n]` with the index and
      the displacement optional, or the direct form `[n]`. */
  function ReadEffAddr(s: string): Option<EffAddr>
  {
    if |s| < 2 || s[0] != '[' || s[|s| - 1] != ']' then None
    else ReadInner(s[1..|s| - 1])
  }

  /** The text between the brackets. */
  function ReadInner(inner: string): Option<EffAddr>
  {
    if |inner| >= 2 && 'a' <= inner[0] <= 'z' then
      match ReadRegister(inner[..2])
      case None => None
      case Some(base) => ReadAfterBase(base, inner[2..])
    else
      match ReadInt(inner)
      case Some(o) => ReadAddress(None, None, Some(o))
      case None => None
  }

  /** The text after the base register: an optional ` + index`, then the
      displacement tail. */
  function ReadAfterBase(base: Register, rest: string): Option<EffAddr>
  {
    if |rest| >= 5 && rest[..3] == " + " && 'a' <= rest[3] <= 'z' then
      match (ReadRegister(rest[3..5]), ReadOffsetTail(rest[5..]))
      case (Some(index), Some(off)) => ReadAddress(Some(base), Some(index), off)
      case _ => None
    else
      match ReadOffsetTail(rest)
      case Some(off) => ReadAddress(Some(base), None, off)
      case None => None
  }

  function ReadAddress(base: Option<Register>, index: Option<Register>, off: Option<int>): Option<EffAddr>
  {
    match off
    case None => Some(EffAddr(base, index, None))
    case Some(o) => if -0x8000 <= o < 0x8000 then Some(EffAddr(base, index, Some(o))) else None
  }

  /** The addresses whose text can be read back: those with a base register
      and the direct ones. Every address the decoder produces is one. */
  predicate Printable(ea: EffAddr)
  {
    ea.base.Some? || IsDirect(ea)
  }

  lemma OffsetTailRoundTrip(ea: EffAddr)
    requires ea.base.Some?
    ensures ReadOffsetTail(OffsetText(ea)) == Some(ea.offset)
  {
    match ea.offset
    case None =>
    case Some(o) =>
      var m: nat := if o < 0 then -(o as int) else o;
      NatTextRoundTrip(m);
      assert OffsetText(ea)[3..] == NatText(m);
  }

  /** The text of an address reads back as the address. */
  lemma EffAddrTextRoundTrip(ea: EffAddr)
    requires Printable(ea)
    ensures ReadEffAddr(EffAddrText(ea)) == Some(ea)
  {
    if ea.base.Some? {
      BasedRoundTrip(ea);
    } else {
      UnbasedRoundTrip(ea);
    }
  }

  lemma BasedRoundTrip(ea: EffAddr)
    requires Printable(ea) && ea.base.Some?
    ensures ReadEffAddr(EffAddrText(ea)) == Some(ea)
  {
    ReadBracketed(BaseText(ea), IndexText(ea), OffsetText(ea));
    AfterBaseRoundTrip(ea);
    BasedInner(ea.base.value, IndexText(ea) + OffsetText(ea));
  }

  /** `ReadEffAddr` strips the brackets. */
  lemma ReadBracketed(a: string, b: string, c: string)
    ensures ReadEffAddr("[" + a + b + c + "]") == ReadInner(a + (b + c))
  {
    var s := "[" + a + b + c + "]";
    assert s == "[" + (a + (b + c)) + "]";
    assert s[1..|s| - 1] == a + (b + c);
  }

  /** A base register's name followed by a tail is read by `ReadAfterBase`. */
  lemma BasedInner(base: Register, tail: string)
    ensures ReadInner(RegisterName(base) + tail) == ReadAfterBase(base, tail)
  {
    var inner := RegisterName(base) + tail;
    assert inner[..2] == RegisterName(base);
    assert inner[2..] == tail;
    RegisterNameRoundTrip(base);
  }

  /** What follows the base register reads back as the rest of the address. */
  lemma AfterBaseRoundTrip(ea: EffAddr)
    requires ea.base.Some?
    ensures ReadAfterBase(ea.base.value, IndexText(ea) + OffsetText(ea)) == Some(ea)
  {
    OffsetTailRoundTrip(ea);
    if ea.index.Some? {
      IndexedTail(ea);
      RegisterNameRoundTrip(ea.index.value);
    } else {
      UnindexedTail(ea);
    }
  }

  lemma UnbasedRoundTrip(ea: EffAddr)
    requires Printable(ea) && ea.base.None?
    ensures ReadEffAddr(EffAddrText(ea)) == Some(ea)
  {
    ReadBracketed(BaseText(ea), IndexText(ea), OffsetText(ea));
    assert BaseText(ea) + (IndexText(ea) + OffsetText(ea)) == IntText(ea.offset.value);
    IntTextRoundTrip(ea.offset.value);
  }

  lemma IndexedTail(ea: EffAddr)
    requires ea.base.Some? && ea.index.Some?
    ensures var rest := IndexText(ea) + OffsetText(ea);
            |rest| >= 5 && rest[..3] == " + " && 'a' <= rest[3] <= 'z' &&
            rest[3..5] == RegisterName(ea.index.value) && rest[5..] == OffsetText(ea)
  {
  }

  lemma UnindexedTail(ea: EffAddr)
    requires ea.base.Some? && ea.index.None?
    ensures var rest := IndexText(ea) + OffsetText(ea);
            rest == OffsetText(ea) && !(|rest| >= 5 && rest[..3] == " + " && 'a' <= rest[3] <= 'z')
  {
    var rest := OffsetText(ea);
    if |rest| >= 5 && rest[..3] == " + " {
      assert IsDigit(rest[3]);
    }
  }

  // ---------------------------------------------------------------------------
  // Jump targets: NASM's `$` is the address of the instruction, and the
  // offset after the two-byte jump is relative to the next one.

  /** The text of the target `$ + o`. */
  function RelShape(o: int): string
  {
    if o > 0 then "$+" + NatText(o) + "+0"
    else if o == 0 then "$+0"
    else "$" + IntText(o) + "+0"
  }

  /** `Operand::RelOffsetByte` displayed, as intended: `x + 2` computed
      without overflow. */
  function RelText(x: I8): string
  {
    RelShape(x + 2)
  }

  /** `Operand::RelOffsetByte` displayed as written: `x + 2` is an `i8` sum,
      which overflows, and panics in a debug build, for x = 126 and 127. */
  function RelTextAsWritten(x: I8): Result<string>
  {
    if x + 2 > 0x7F then Panic("attempt to add with overflow") else Ok(RelShape(x + 2))
  }

  /** Reads `$+n+0`, `$-n+0` or `$+0`. */
  function ReadRel(s: string): Option<int>
  {
    if s == "$+0" then Some(0)
    else if |s| >= 5 && s[0] == '$' && (s[1] == '+' || s[1] == '-') && s[|s| - 2..] == "+0"
            && AllDigits(s[2..|s| - 2]) then
      var v: int := DecimalValue(s[2..|s| - 2]);
      Some(if s[1] == '+' then v else 0 - v)
    else None
  }

  lemma RelShapeRoundTrip(o: int)
    ensures ReadRel(RelShape(o)) == Some(o)
  {
    if o != 0 {
      var sign := if o > 0 then '+' else '-';
      var n: nat := if o > 0 then o else -o;
      RelShapeSigned(o);
      NatTextRoundTrip(n);
      RelSigned(sign, NatText(n));
    }
  }

  /** A nonzero offset prints as `$`, its sign, its magnitude and `+0`. */
  lemma RelShapeSigned(o: int)
    requires o != 0
    ensures RelShape(o) == ['$', if o > 0 then '+' else '-'] + NatText(if o > 0 then o else -o) + "+0"
  {
  }

  /** `ReadRel` of `$`, a sign, a numeral and `+0`. */
  lemma RelSigned(sign: char, t: string)
    requires (sign == '+' || sign == '-') && |t| >= 1 && AllDigits(t)
    ensures ReadRel(['$', sign] + t + "+0") == Some(if sign == '+' then DecimalValue(t) else 0 - DecimalValue(t))
  {
    var s := ['$', sign] + t + "+0";
    assert s[2..|s| - 2] == t;
    assert s[|s| - 2..] == "+0";
    ReadRelParts(s, sign, t);
  }

  lemma ReadRelParts(s: string, sign: char, t: string)
    requires (sign == '+' || sign == '-') && |t| >= 1 && AllDigits(t)
    requires |s| >= 5 && s[0] == '$' && s[1] == sign && s[2..|s| - 2] == t && s[|s| - 2..] == "+0"
    ensures ReadRel(s) == Some(if sign == '+' then DecimalValue(t) else 0 - DecimalValue(t))
  {
    assert s != "$+0";
  }

  // ---------------------------------------------------------------------------
  // Operands and instructions.

  /** `impl Display for Operand`, with the intended address and target
      texts: immediates and memory operands carry their size. */
  function OperandText(op: Operand): string
  {
    match op
    case Reg(r) => RegisterName(r)
    case ImmByte(b) => "byte " + NatText(b as int)
    case ImmWord(w) => "word " + NatText(w as int)
    case MemByte(ea) => "byte " + EffAddrText(ea)
    case MemWord(ea) => "word " + EffAddrText(ea)
    case RelOffsetByte(x) => RelText(x)
  }

  /** `impl Display for Operand` as written. */
  function OperandTextAsWritten(op: Operand): Result<string>
  {
    match op
    case MemByte(ea) => var t :- EffAddrTextAsWritten(ea); Ok("byte " + t)
    case MemWord(ea) => var t :- EffAddrTextAsWritten(ea); Ok("word " + t)
    case RelOffsetByte(x) => RelTextAsWritten(x)
    case _ => Ok(OperandText(op))
  }

  /** The rest of a sized operand after `byte ` or `word `. */
  function ReadSized(wide: bool, t: string): Option<Operand>
  {
    if |t| >= 1 && t[0] == '[' then
      match ReadEffAddr(t)
      case Some(ea) => Some(if wide then MemWord(ea) else MemByte(ea))
      case None => None
    else if |t| >= 1 && AllDigits(t) then
      var v := DecimalValue(t);
      if wide && v < 0x10000 then Some(ImmWord(v as bv16))
      else if !wide && v < 0x100 then Some(ImmByte(v as bv8))
      else None
    else None
  }

  function ReadOperand(s: string): Option<Operand>
  {
    if |s| >= 5 && s[..5] == "byte " then ReadSized(false, s[5..])
    else if |s| >= 5 && s[..5] == "word " then ReadSized(true, s[5..])
    else if |s| >= 1 && s[0] == '$' then
      match ReadRel(s)
      case Some(o) => if -0x80 <= o - 2 < 0x80 then Some(RelOffsetByte(o - 2)) else None
      case None => None
    else
      match ReadRegister(s)
      case Some(r) => Some(Reg(r))
      case None => None
  }

  /** The operands whose text can be read back. */
  predicate PrintableOperand(op: Operand)
  {
    (op.MemByte? || op.MemWord?) ==> Printable(op.ea)
  }

  lemma ByteNumeral(b: bv8)
    ensures DecimalValue(NatText(b as int)) == b as int && ((b as int) as bv8) == b
  {
    NatTextRoundTrip(b as int);
  }

  lemma WordNumeral(w: bv16)
    ensures DecimalValue(NatText(w as int)) == w as int && ((w as int) as bv16) == w
  {
    NatTextRoundTrip(w as int);
  }

  lemma ImmByteRoundTrip(b: bv8)
    ensures ReadOperand(OperandText(ImmByte(b))) == Some(ImmByte(b))
  {
    ReadPrefixed(false, NatText(b as int));
    ReadSizedNumeral(false, NatText(b as int));
    ByteNumeral(b);
  }

  lemma ImmWordRoundTrip(w: bv16)
    ensures ReadOperand(OperandText(ImmWord(w))) == Some(ImmWord(w))
  {
    ReadPrefixed(true, NatText(w as int));
    ReadSizedNumeral(true, NatText(w as int));
    WordNumeral(w);
  }

  /** `ReadSized` of a numeral: an immediate of the size, if it fits. */
  lemma ReadSizedNumeral(wide: bool, t: string)
    requires |t| >= 1 && AllDigits(t)
    ensures ReadSized(wide, t)
              == if wide && DecimalValue(t) < 0x10000 then Some(ImmWord(DecimalValue(t) as bv16))
                 else if !wide && DecimalValue(t) < 0x100 then Some(ImmByte(DecimalValue(t) as bv8))
                 else None
  {
    assert IsDigit(t[0]);
  }

  /** `ReadOperand` of a sized operand reads what follows the size. */
  lemma ReadPrefixed(wide: bool, t: string)
    ensures ReadOperand((if wide then "word " else "byte ") + t) == ReadSized(wide, t)
  {
    var s := (if wide then "word " else "byte ") + t;
    assert s[..5] == (if wide then "word " else "byte ") && s[5..] == t;
  }

  lemma MemRoundTrip(wide: bool, ea: EffAddr)
    requires Printable(ea)
    ensures var op := if wide then MemWord(ea) else MemByte(ea);
      ReadOperand(OperandText(op)) == Some(op)
  {
    ReadPrefixed(wide, EffAddrText(ea));
    EffAddrTextRoundTrip(ea);
  }

  lemma RelRoundTrip(x: I8)
    ensures ReadOperand(OperandText(RelOffsetByte(x))) == Some(RelOffsetByte(x))
  {
    RelShapeRoundTrip(x + 2);
    var s := RelText(x);
    assert s[0] == '$';
    if |s| >= 5 {
      assert s[..5][0] == '$';
    }
  }

  /** The text of an operand reads back as the operand. */
  lemma {:induction false} OperandTextRoundTrip(op: Operand)
    requires PrintableOperand(op)
    ensures ReadOperand(OperandText(op)) == Some(op)
  {
    match op
    case Reg(r) => RegisterNameRoundTrip(r);
    case ImmByte(b) => ImmByteRoundTrip(b);
    case ImmWord(w) => ImmWordRoundTrip(w);
    case MemByte(ea) => MemRoundTrip(false, ea);
    case MemWord(ea) => MemRoundTrip(true, ea);
    case RelOffsetByte(x) => RelRoundTrip(x);
  }

  // ---------------------------------------------------------------------------
  // Instructions.

  /** The mnemonic of a conditional jump, as `impl Display for Inst` writes it. */
  function CondName(c: JumpCond): (s: string)
    ensures |s| >= 2 && ' ' !in s && '\n' !in s
  {
    match c
    case JO => "jo"
    case JNO => "jno"
    case JB => "jb"
    case JNB => "jnb"
    case JE => "je"
    case JNE => "jne"
    case JBE => "jbe"
    case JNBE => "jnbe"
    case JS => "js"
    case JNS => "jns"
    case JP => "jp"
    case JNP => "jnp"
    case JL => "jl"
    case JNL => "jnl"
    case JLE => "jle"
    case JNLE => "jnle"
  }

  /** The mnemonic of a loop-family instruction. */
  function LoopName(c: LoopKind): (s: string)
    ensures |s| >= 2 && ' ' !in s && '\n' !in s
  {
    match c
    case LOOPNZ => "loopnz"
    case LOOPZ => "loopz"
    case LOOP => "loop"
    case JCXZ => "jcxz"
  }

  function ReadCond(s: string): Option<JumpCond>
  {
    if s == "jo" then Some(JO)
    else if s == "jno" then Some(JNO)
    else if s == "jb" then Some(JB)
    else if s == "jnb" then Some(JNB)
    else if s == "je" then Some(JE)
    else if s == "jne" then Some(JNE)
    else if s == "jbe" then Some(JBE)
    else if s == "jnbe" then Some(JNBE)
    else if s == "js" then Some(JS)
    else if s == "jns" then Some(JNS)
    else if s == "jp" then Some(JP)
    else if s == "jnp" then Some(JNP)
    else if s == "jl" then Some(JL)
    else if s == "jnl" then Some(JNL)
    else if s == "jle" then Some(JLE)
    else if s == "jnle" then Some(JNLE)
    else None
  }

  function ReadLoop(s: string): Option<LoopKind>
  {
    if s == "loopnz" then Some(LOOPNZ)
    else if s == "loopz" then Some(LOOPZ)
    else if s == "loop" then Some(LOOP)
    else if s == "jcxz" then Some(JCXZ)
    else None
  }

  lemma CondNameRoundTrip(c: JumpCond)
    ensures ReadCond(CondName(c)) == Some(c) && ReadLoop(CondName(c)) == None
  {
  }

  lemma LoopNameRoundTrip(k: LoopKind)
    ensures ReadLoop(LoopName(k)) == Some(k) && ReadCond(LoopName(k)) == None
  {
  }

  /** The mnemonic of a two-operand instruction. */
  function PairName(i: Inst): (s: string)
    requires i.MOV? || i.ADD? || i.SUB? || i.CMP?
    ensures |s| == 3 && ' ' !in s && '\n' !in s
  {
    match i
    case MOV(_, _) => "mov"
    case ADD(_, _) => "add"
    case SUB(_, _) => "sub"
    case CMP(_, _) => "cmp"
  }

  /** The two-operand instruction named `mn`, if any. */
  function ReadPair(mn: string, dst: Operand, src: Operand): Option<Inst>
  {
    if mn == "mov" then Some(MOV(dst, src))
    else if mn == "add" then Some(ADD(dst, src))
    else if mn == "sub" then Some(SUB(dst, src))
    else if mn == "cmp" then Some(CMP(dst, src))
    else None
  }

  /** `impl Display for Inst`, with the intended operand texts:
      `mnemonic dst, src`, `mnemonic target` or `hlt`. */
  function InstText(i: Inst): string
  {
    match i
    case Jump(c, t) => CondName(c) + " " + OperandText(t)
    case Loop(k, t) => LoopName(k) + " " + OperandText(t)
    case HLT => "hlt"
    case _ => PairName(i) + " " + ArgsText(i.dst, i.src)
  }

  /** The operands of a two-operand instruction: `dst, src`. */
  function ArgsText(dst: Operand, src: Operand): string
  {
    OperandText(dst) + ", " + OperandText(src)
  }

  /** `impl Display for Inst` as written: it fails where an operand's
      text does. */
  function InstTextAsWritten(i: Inst): Result<string>
  {
    match i
    case Jump(c, t) => var o :- OperandTextAsWritten(t); Ok(CondName(c) + " " + o)
    case Loop(k, t) => var o :- OperandTextAsWritten(t); Ok(LoopName(k) + " " + o)
    case HLT => Ok("hlt")
    case _ =>
      var d :- OperandTextAsWritten(i.dst);
      var o :- OperandTextAsWritten(i.src);
      Ok(PairName(i) + " " + d + ", " + o)
  }

  /** The index of the first `c` in `s`, or `|s|` when there is none. */
  function FirstIndex(s: string, c: char): (k: nat)
    ensures k <= |s|
    ensures forall j :: 0 <= j < k ==> s[j] != c
    ensures k < |s| ==> s[k] == c
  {
    if |s| == 0 then 0
    else if s[0] == c then 0
    else 1 + FirstIndex(s[1..], c)
  }

  /** Reads an instruction's text back: the mnemonic up to the first space,
      then one operand, or two separated by `, `. */
  function ReadInst(s: string): Option<Inst>
  {
    if s == "hlt" then Some(HLT)
    else
      var k := FirstIndex(s, ' ');
      if k == |s| then None else ReadNamed(s[..k], s[k + 1..])
  }

  /** The instruction with mnemonic `mn` and operand text `args`. */
  function ReadNamed(mn: string, args: string): Option<Inst>
  {
    var c, l := ReadCond(mn), ReadLoop(mn);
    if c.Some? then (match ReadOperand(args) case Some(t) => Some(Jump(c.value, t)) case None => None)
    else if l.Some? then (match ReadOperand(args) case Some(t) => Some(Loop(l.value, t)) case None => None)
    else ReadPairArgs(mn, args)
  }

  /** The two operands of `mn dst, src`. */
  function ReadPairArgs(mn: string, args: string): Option<Inst>
  {
    var j := FirstIndex(args, ',');
    if j + 1 >= |args| || args[j + 1] != ' ' then None
    else
      var d, o := ReadOperand(args[..j]), ReadOperand(args[j + 2..]);
      if d.Some? && o.Some? then ReadPair(mn, d.value, o.value) else None
  }

  /** The characters that separate operands and lines. */
  predicate Separator(c: char)
  {
    c == ',' || c == '\n'
  }

  /** No operand text holds a separator. */
  lemma OperandLacks(op: Operand, c: char)
    requires Separator(c)
    ensures c !in OperandText(op)
  {
    match op
    case ImmByte(b) => DigitsLack(NatText(b as int), c); JoinLacks("byte ", NatText(b as int), c);
    case ImmWord(w) => DigitsLack(NatText(w as int), c); JoinLacks("word ", NatText(w as int), c);
    case MemByte(ea) => EffAddrLacks(ea, c); JoinLacks("byte ", EffAddrText(ea), c);
    case MemWord(ea) => EffAddrLacks(ea, c); JoinLacks("word ", EffAddrText(ea), c);
    case RelOffsetByte(x) => RelLacks(x + 2, c);
    case Reg(r) => NameLacks(r, c);
  }

  lemma JoinLacks(a: string, b: string, c: char)
    requires c !in a && c !in b
    ensures c !in a + b
  {
  }

  lemma RelLacks(o: int, c: char)
    requires Separator(c)
    ensures c !in RelShape(o)
  {
    if o != 0 {
      DigitsLack(NatText(if o > 0 then o else -o), c);
    }
  }

  lemma DigitsLack(s: string, c: char)
    requires AllDigits(s) && Separator(c)
    ensures c !in s
  {
    forall i | 0 <= i < |s|
      ensures s[i] != c
    {
      assert IsDigit(s[i]);
    }
  }

  lemma NameLacks(r: Register, c: char)
    requires Separator(c)
    ensures c !in RegisterName(r)
  {
  }

  lemma OffsetLacks(ea: EffAddr, c: char)
    requires Separator(c)
    ensures c !in OffsetText(ea)
  {
    match ea.offset
    case None =>
    case Some(o) =>
      var m: nat := if o < 0 then -(o as int) else o;
      DigitsLack(NatText(m), c);
      if ea.base.Some? {
        assert OffsetText(ea) == (if o < 0 then " - " else " + ") + NatText(m);
      } else {
        assert OffsetText(ea) == (if o < 0 then "-" else "") + NatText(m);
      }
  }

  lemma EffAddrLacks(ea: EffAddr, c: char)
    requires Separator(c)
    ensures c !in EffAddrText(ea)
  {
    if ea.base.Some? {
      NameLacks(ea.base.value, c);
    }
    if ea.index.Some? {
      NameLacks(ea.index.value, c);
    }
    OffsetLacks(ea, c);
  }

  /** An instruction's text is one line. */
  lemma InstLacksNewline(i: Inst)
    ensures '\n' !in InstText(i)
  {
    match i
    case Jump(_, t) => OperandLacks(t, '\n');
    case Loop(_, t) => OperandLacks(t, '\n');
    case HLT =>
    case _ =>
      OperandLacks(i.dst, '\n');
      OperandLacks(i.src, '\n');
  }

  /** The operands of an instruction whose text can be read back. */
  predicate PrintableInst(i: Inst)
  {
    match i
    case Jump(_, t) => PrintableOperand(t)
    case Loop(_, t) => PrintableOperand(t)
    case HLT => true
    case _ => PrintableOperand(i.dst) && PrintableOperand(i.src)
  }

  /** `dst, src` splits at its first comma. */
  lemma ArgsSplit(d: Operand, o: Operand)
    ensures var args := ArgsText(d, o);
      var j := FirstIndex(args, ',');
      j + 1 < |args| && args[j + 1] == ' ' && args[..j] == OperandText(d) && args[j + 2..] == OperandText(o)
  {
    OperandLacks(d, ',');
    CommaSplits(OperandText(d), OperandText(o));
  }

  /** `a, b` splits at the first comma when `a` has none. */
  lemma CommaSplits(a: string, b: string)
    requires ',' !in a
    ensures var args := a + ", " + b;
      var j := FirstIndex(args, ',');
      j + 1 < |args| && args[j + 1] == ' ' && args[..j] == a && args[j + 2..] == b
  {
    var args := a + ", " + b;
    assert args == a + [','] + (" " + b);
    FirstIndexAfter(a, ',', " " + b);
    assert args[..|a|] == a;
    assert args[|a| + 2..] == b;
  }

  lemma PairTextSplits(i: Inst)
    requires i.MOV? || i.ADD? || i.SUB? || i.CMP?
    ensures var s := InstText(i);
      var k := FirstIndex(s, ' ');
      k == 3 && s[..k] == PairName(i) && s[k + 1..] == ArgsText(i.dst, i.src)
  {
    NameSplits(PairName(i), ArgsText(i.dst, i.src));
  }

  /** The first `c` of `a + [c] + b` is the one after `a` when `a` has none. */
  lemma {:induction false} FirstIndexAfter(a: string, c: char, b: string)
    requires c !in a
    ensures FirstIndex(a + [c] + b, c) == |a|
    decreases |a|
  {
    if |a| > 0 {
      assert (a + [c] + b)[1..] == a[1..] + [c] + b;
      FirstIndexAfter(a[1..], c, b);
    }
  }

  /** `name rest` splits at the space after the name. */
  lemma NameSplits(name: string, rest: string)
    requires ' ' !in name && |name| >= 2
    ensures var s := name + " " + rest;
      var k := FirstIndex(s, ' ');
      k == |name| && s[..k] == name && s[k + 1..] == rest && (|name| == 3 ==> s != "hlt")
  {
    var s := name + " " + rest;
    FirstIndexAfter(name, ' ', rest);
    assert s[..|name|] == name;
    assert s[|name| + 1..] == rest;
    if |name| == 3 && s == "hlt" {
      assert s[|name|] == ' ';
    }
  }

  lemma PairNameIsNoJump(i: Inst)
    requires i.MOV? || i.ADD? || i.SUB? || i.CMP?
    ensures ReadCond(PairName(i)) == None && ReadLoop(PairName(i)) == None
    ensures ReadPair(PairName(i), i.dst, i.src) == Some(i)
  {
  }

  lemma PairRoundTrip(i: Inst)
    requires i.MOV? || i.ADD? || i.SUB? || i.CMP?
    requires PrintableOperand(i.dst) && PrintableOperand(i.src)
    ensures ReadInst(InstText(i)) == Some(i)
  {
    PairTextSplits(i);
    PairNameIsNoJump(i);
    PairArgsRoundTrip(PairName(i), i.dst, i.src);
    ReadPairText(InstText(i), PairName(i), ArgsText(i.dst, i.src));
  }

  /** The operand text of a two-operand instruction reads back. */
  lemma PairArgsRoundTrip(mn: string, d: Operand, o: Operand)
    requires PrintableOperand(d) && PrintableOperand(o)
    ensures ReadPairArgs(mn, ArgsText(d, o)) == ReadPair(mn, d, o)
  {
    ArgsSplit(d, o);
    OperandTextRoundTrip(d);
    OperandTextRoundTrip(o);
    ReadPairArgsOf(mn, ArgsText(d, o), d, o);
  }

  /** `ReadInst` of `mn args` for a three-letter mnemonic that names no jump. */
  lemma ReadPairText(s: string, mn: string, args: string)
    requires FirstIndex(s, ' ') == 3 && 3 < |s| && s[..3] == mn && s[4..] == args
    requires ReadCond(mn) == None && ReadLoop(mn) == None
    ensures ReadInst(s) == ReadPairArgs(mn, args)
  {
    ReadInstNamed(s, 3);
    ReadNamedPair(mn, args);
  }

  lemma ReadNamedPair(mn: string, args: string)
    requires ReadCond(mn) == None && ReadLoop(mn) == None
    ensures ReadNamed(mn, args) == ReadPairArgs(mn, args)
  {
  }

  lemma ReadPairArgsOf(mn: string, args: string, d: Operand, o: Operand)
    requires var j := FirstIndex(args, ',');
      && j + 1 < |args| && args[j + 1] == ' '
      && ReadOperand(args[..j]) == Some(d) && ReadOperand(args[j + 2..]) == Some(o)
    ensures ReadPairArgs(mn, args) == ReadPair(mn, d, o)
  {
    var j := FirstIndex(args, ',');
    var a, b := args[..j], args[j + 2..];
    assert ReadOperand(a) == Some(d) && ReadOperand(b) == Some(o);
  }

  /** `ReadInst` of a text with a space at `k`, the first one. */
  lemma ReadInstNamed(s: string, k: nat)
    requires k < |s| && FirstIndex(s, ' ') == k
    ensures ReadInst(s) == ReadNamed(s[..k], s[k + 1..])
  {
    SpacedIsNotHlt(s, k);
  }

  /** A text with a space in it is not `hlt`. */
  lemma SpacedIsNotHlt(s: string, k: nat)
    requires k < |s| && s[k] == ' '
    ensures s != "hlt"
  {
    assert "hlt"[0] != ' ' && "hlt"[1] != ' ' && "hlt"[2] != ' ';
  }

  lemma JumpTextRoundTrip(c: JumpCond, t: Operand)
    requires PrintableOperand(t)
    ensures ReadInst(InstText(Jump(c, t))) == Some(Jump(c, t))
  {
    NameSplits(CondName(c), OperandText(t));
    CondNameRoundTrip(c);
    OperandTextRoundTrip(t);
  }

  lemma LoopTextRoundTrip(k: LoopKind, t: Operand)
    requires PrintableOperand(t)
    ensures ReadInst(InstText(Loop(k, t))) == Some(Loop(k, t))
  {
    NameSplits(LoopName(k), OperandText(t));
    LoopNameRoundTrip(k);
    OperandTextRoundTrip(t);
  }

  /** The text of an instruction reads back as the instruction. */
  lemma {:induction false} InstTextRoundTrip(i: Inst)
    requires PrintableInst(i)
    ensures ReadInst(InstText(i)) == Some(i)
  {
    match i
    case Jump(c, t) => JumpTextRoundTrip(c, t);
    case Loop(k, t) => LoopTextRoundTrip(k, t);
    case HLT =>
    case _ => PairRoundTrip(i);
  }

  /** Every operand of a decodable instruction has a readable text. */
  lemma WellFormedPrintable(i: Inst)
    requires WellFormed(i)
    ensures PrintableInst(i)
  {
    match i
    case Jump(_, _) =>
    case Loop(_, _) =>
    case HLT =>
    case _ =>
      RmPrintable(i.dst);
      RmPrintable(i.src);
  }

  lemma RmPrintable(op: Operand)
    requires (op.MemByte? || op.MemWord?) ==> EncodableEa(op.ea)
    ensures PrintableOperand(op)
  {
    if op.MemByte? || op.MemWord? {
      EaCodeHasBase(op.ea);
    }
  }

  lemma EaCodeHasBase(ea: EffAddr)
    requires EncodableEa(ea)
    ensures Printable(ea)
  {
  }

  /** The text of every instruction the decoder produces reads back as
      that instruction. */
  lemma DecodedTextRoundTrip(bs: seq<bv8>)
    requires FromEncoding(bs).Ok? && FromEncoding(bs).value.Some?
    ensures var i := FromEncoding(bs).value.value.1;
      ReadInst(InstText(i)) == Some(i)
  {
    DecodeWellFormed(bs);
    WellFormedPrintable(FromEncoding(bs).value.value.1);
    InstTextRoundTrip(FromEncoding(bs).value.value.1);
  }

  // ---------------------------------------------------------------------------
  // The disassembly listing.

  const HEADER_LINES: seq<string> := ["; This file was disassembled by Lawrence", "bits 16", ""]

  /** Each line followed by a newline. */
  function JoinLines(ls: seq<string>): string
  {
    if |ls| == 0 then "" else ls[0] + "\n" + JoinLines(ls[1..])
  }

  /** The two header lines and a blank line. */
  const HEADER: string := JoinLines(HEADER_LINES)

  /** `f` applied to each element, in order. */
  function MapSeq<A, B>(xs: seq<A>, f: A -> B): (ys: seq<B>)
    ensures |ys| == |xs| && forall k :: 0 <= k < |xs| ==> ys[k] == f(xs[k])
  {
    seq(|xs|, k requires 0 <= k < |xs| => f(xs[k]))
  }

  /** One more element adds its image at the end. */
  lemma MapSnoc<A, B>(xs: seq<A>, f: A -> B, k: nat)
    requires k < |xs|
    ensures MapSeq(xs[..k + 1], f) == MapSeq(xs[..k], f) + [f(xs[k])]
  {
    var a := MapSeq(xs[..k + 1], f);
    var b := MapSeq(xs[..k], f) + [f(xs[k])];
    assert forall j :: 0 <= j < k + 1 ==> a[j] == b[j];
  }

  /** The text of each instruction, in order. */
  function Texts(insts: seq<Inst>): (ls: seq<string>)
    ensures |ls| == |insts|
    ensures forall k :: 0 <= k < |insts| ==> ls[k] == InstText(insts[k])
  {
    MapSeq(insts, InstText)
  }

  /** The listing of `insts`: the header, then one line per instruction. */
  function ListingText(insts: seq<Inst>): string
  {
    JoinLines(HEADER_LINES + Texts(insts))
  }

  lemma Assoc(a: string, b: string, c: string, d: string)
    ensures a + b + c + d == a + b + (c + d)
  {
  }

  /** Adding a line at the end appends it and a newline. */
  lemma {:induction false} JoinSnoc(ls: seq<string>, l: string)
    ensures JoinLines(ls + [l]) == JoinLines(ls) + l + "\n"
    decreases |ls|
  {
    if |ls| == 0 {
      assert [l][1..] == [];
    } else {
      assert (ls + [l])[1..] == ls[1..] + [l];
      JoinSnoc(ls[1..], l);
      Assoc(ls[0] + "\n", JoinLines(ls[1..]), l, "\n");
    }
  }

  /** `disassemble`: appends each instruction's text and a newline after
      the header. */
  method Disassemble(insts: seq<Inst>) returns (text: string)
    ensures text == ListingText(insts)
  {
    text := HEADER;
    var k := 0;
    assert HEADER_LINES + Texts(insts[..0]) == HEADER_LINES;
    while k < |insts|
      invariant k <= |insts|
      invariant text == JoinLines(HEADER_LINES + Texts(insts[..k]))
    {
      MapSnoc(insts, InstText, k);
      assert HEADER_LINES + Texts(insts[..k + 1]) == (HEADER_LINES + Texts(insts[..k])) + [InstText(insts[k])];
      JoinSnoc(HEADER_LINES + Texts(insts[..k]), InstText(insts[k]));
      text := text + InstText(insts[k]) + "\n";
      k := k + 1;
    }
    assert insts[..k] == insts;
  }

  /** `s` cut at every newline; a final newline ends the last line. */
  function Lines(s: string): seq<string>
    decreases |s|
  {
    if |s| == 0 then []
    else
      var k := FirstIndex(s, '\n');
      if k == |s| then [s] else [s[..k]] + Lines(s[k + 1..])
  }

  /** Reads one instruction per line, failing on any unreadable line. */
  function ReadLines(ls: seq<string>): Option<seq<Inst>>
  {
    if |ls| == 0 then Some([])
    else
      match (ReadInst(ls[0]), ReadLines(ls[1..]))
      case (Some(i), Some(rest)) => Some([i] + rest)
      case _ => None
  }

  /** Reads a listing back: the header lines, then the instructions. */
  function ReadListing(s: string): Option<seq<Inst>>
  {
    var ls := Lines(s);
    if |ls| >= 3 && ls[..3] == HEADER_LINES then ReadLines(ls[3..]) else None
  }

  lemma LinesCons(line: string, rest: string)
    requires '\n' !in line
    ensures Lines(line + "\n" + rest) == [line] + Lines(rest)
  {
    var s := line + "\n" + rest;
    FirstIndexAfter(line, '\n', rest);
    assert s[..|line|] == line;
    assert s[|line| + 1..] == rest;
  }

  /** Joined lines without newlines in them cut back into the same lines. */
  lemma {:induction false} LinesOfJoin(ls: seq<string>)
    requires forall k :: 0 <= k < |ls| ==> '\n' !in ls[k]
    ensures Lines(JoinLines(ls)) == ls
    decreases |ls|
  {
    if |ls| > 0 {
      LinesCons(ls[0], JoinLines(ls[1..]));
      LinesOfJoin(ls[1..]);
    }
  }

  lemma {:induction false} ReadEachLine(ls: seq<string>, insts: seq<Inst>)
    requires |ls| == |insts|
    requires forall k :: 0 <= k < |ls| ==> ReadInst(ls[k]) == Some(insts[k])
    ensures ReadLines(ls) == Some(insts)
    decreases |ls|
  {
    if |ls| > 0 {
      ReadEachLine(ls[1..], insts[1..]);
      assert [insts[0]] + insts[1..] == insts;
    }
  }

  lemma HeaderLinesLack()
    ensures forall k :: 0 <= k < |HEADER_LINES| ==> '\n' !in HEADER_LINES[k]
  {
  }

  /** A listing of printable instructions reads back as those instructions. */
  lemma ListingRoundTrip(insts: seq<Inst>)
    requires forall k :: 0 <= k < |insts| ==> PrintableInst(insts[k])
    ensures ReadListing(ListingText(insts)) == Some(insts)
  {
    var ts := Texts(insts);
    var ls := HEADER_LINES + ts;
    forall k | 0 <= k < |ls|
      ensures '\n' !in ls[k]
    {
      if k < 3 {
        HeaderLinesLack();
      } else {
        InstLacksNewline(insts[k - 3]);
      }
    }
    LinesOfJoin(ls);
    forall k | 0 <= k < |ts|
      ensures ReadInst(ts[k]) == Some(insts[k])
    {
      InstTextRoundTrip(insts[k]);
    }
    ReadEachLine(ts, insts);
    assert ls[..3] == HEADER_LINES && ls[3..] == ts;
  }

  // ---------------------------------------------------------------------------
  // The texts the decoder's own output breaks as written.

  /** `jnz` with the byte 0x7E decodes, but its target's text overflows. */
  lemma RelOverflowAsWritten()
    ensures FromEncoding([0x75, 0x7E]) == Ok(Some((2, Jump(JNE, RelOffsetByte(126)))))
    ensures InstTextAsWritten(Jump(JNE, RelOffsetByte(126))).Panic?
  {
    assert SignedByte(0x7E) == 126;
  }

  /** With the sum taken without overflow the target is `$+128+0`. */
  lemma RelOverflowIntended()
    ensures InstText(Jump(JNE, RelOffsetByte(126))) == "jne $+128+0"
  {
    assert NatText(128) == "128" by {
      assert NatText(12) == "12" by { assert NatText(1) == "1"; }
    }
  }

  /** `mov ax, [bx - 32768]` decodes, but its address's text overflows. */
  lemma AbsOverflowAsWritten()
    ensures FromEncoding([0x8B, 0x87, 0x00, 0x80]) == Ok(Some((4, MOV(Reg(AX), MemWord(EffAddr(Some(BX), None, Some(-0x8000)))))))
    ensures InstTextAsWritten(MOV(Reg(AX), MemWord(EffAddr(Some(BX), None, Some(-0x8000))))).Panic?
  {
    assert SignedWord(LeWord(0x00, 0x80)) == -0x8000;
  }

  /** With the magnitude taken without overflow the address reads back. */
  lemma AbsOverflowIntended()
    ensures ReadEffAddr(EffAddrText(EffAddr(Some(BX), None, Some(-0x8000)))) == Some(EffAddr(Some(BX), None, Some(-0x8000)))
  {
    EffAddrTextRoundTrip(EffAddr(Some(BX), None, Some(-0x8000)));
  }

  /** As written, `mov ax, [0]` decodes to an address with no components,
      whose text `[]` is not an address. */
  lemma DirectZeroText()
    ensures EffAddrText(EffAddr(None, None, None)) == "[]"
    ensures ReadEffAddr("[]") == None
  {
  }

  /** The operands whose text overflows as written: a relative offset of
      126 or 127, and the displacement -32768 after a base register. */
  predicate PrintOverflows(op: Operand)
  {
    || (op.RelOffsetByte? && op.rel + 2 > 0x7F)
    || ((op.MemByte? || op.MemWord?) && op.ea.base.Some? && op.ea.offset == Some(-0x8000))
  }

  /** An instruction with an operand whose text overflows as written. */
  predicate InstPrintOverflows(i: Inst)
  {
    match i
    case Jump(_, t) => PrintOverflows(t)
    case Loop(_, t) => PrintOverflows(t)
    case HLT => false
    case _ => PrintOverflows(i.dst) || PrintOverflows(i.src)
  }

  /** An operand's text as written panics exactly when it overflows, and is
      the intended text otherwise. */
  lemma OperandTextAgrees(op: Operand)
    ensures OperandTextAsWritten(op).Panic? <==> PrintOverflows(op)
    ensures OperandTextAsWritten(op).Ok? ==> OperandTextAsWritten(op).value == OperandText(op)
  {
  }

  /** `impl Display for Inst` as written panics exactly on an instruction
      with an overflowing operand, and prints the intended text otherwise. */
  lemma InstTextAgrees(i: Inst)
    ensures InstTextAsWritten(i).Panic? <==> InstPrintOverflows(i)
    ensures InstTextAsWritten(i).Ok? ==> InstTextAsWritten(i).value == InstText(i)
  {
    match i
    case Jump(_, t) => OperandTextAgrees(t);
    case Loop(_, t) => OperandTextAgrees(t);
    case HLT =>
    case _ =>
      OperandTextAgrees(i.dst);
      OperandTextAgrees(i.src);
  }
}
