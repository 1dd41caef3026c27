/** Reference definitions from the Intel 8086 Family User's Manual, Table
    4-12, written independently of the decoder in sim8086/src/parse.rs, and
    the lemmas that tie the decoder to them:
    - `FormOf` classifies a first byte by (mask, pattern) pairs, in the
      decoder's priority order; the patterns turn out to be disjoint;
    - `FormLength` is the length the manual gives each form;
    - `Encode` is a reference assembler for every instruction the decoder can
      produce (`WellFormed`), and decoding its output gives back the
      instruction, so a decoded instruction re-encodes to bytes that decode to
      the same instruction. */
module Sim8086Encoding {
  import opened Results
  import opened Sim8086Parse

  // ---------------------------------------------------------------------------
  // Classification of the first byte.

  datatype Form =
    | HltForm | MovRmReg | MovImmReg | MovImmRm | MovMemToAcc | MovAccToMem
    | ArithRmReg | ArithImmRm | ArithAcc | CondJump | LoopFamily | Unknown

  /** The (mask, pattern, form) table in priority order. */
  const PATTERNS: seq<(bv8, bv8, Form)> := [
    (0xFF, 0xF4, HltForm),     // 11110100
    (0xFC, 0x88, MovRmReg),    // 100010dw
    (0xF0, 0xB0, MovImmReg),   // 1011wrrr
    (0xFE, 0xC6, MovImmRm),    // 1100011w
    (0xFE, 0xA0, MovMemToAcc), // 1010000w
    (0xFE, 0xA2, MovAccToMem), // 1010001w
    (0xC4, 0x00, ArithRmReg),  // 00ooo0dw
    (0xFC, 0x80, ArithImmRm),  // 100000sw
    (0xC6, 0x04, ArithAcc),    // 00ooo10w
    (0xF0, 0x70, CondJump),    // 0111cccc
    (0xFC, 0xE0, LoopFamily)   // 111000cc
  ]

  predicate MatchesPattern(b: bv8, i: nat)
    requires i < |PATTERNS|
  {
    b & PATTERNS[i].0 == PATTERNS[i].1
  }

  /** The form of the first pattern that matches, `Unknown` if none does. */
  function FormFrom(b: bv8, i: nat): Form
    requires i <= |PATTERNS|
    decreases |PATTERNS| - i
  {
    if i == |PATTERNS| then Unknown
    else if MatchesPattern(b, i) then PATTERNS[i].2
    else FormFrom(b, i + 1)
  }

  function FormOf(b: bv8): Form
  {
    FormFrom(b, 0)
  }

  /** No byte matches two patterns, so the priority order of the decoder
      never decides anything: first match is the only match. */
  lemma {:induction false} PatternsDisjoint(b: bv8, i: nat, j: nat)
    requires i < j < |PATTERNS|
    ensures !(MatchesPattern(b, i) && MatchesPattern(b, j))
  {
  }

  /** The form of `b` is the one whose pattern matches. */
  lemma {:induction false} FormOfMatches(b: bv8, i: nat)
    requires i < |PATTERNS| && MatchesPattern(b, i)
    ensures FormOf(b) == PATTERNS[i].2
  {
    var k := 0;
    while k < i
      invariant k <= i
      invariant FormFrom(b, k) == FormOf(b)
    {
      PatternsDisjoint(b, k, i);
      k := k + 1;
    }
  }

  // ---------------------------------------------------------------------------
  // Lengths and sub-opcodes.

  function ModField(b: bv8): bv8 { b >> 6 }
  function RegField(b: bv8): bv8 { (b >> 3) & 7 }
  function RmField(b: bv8): bv8 { b & 7 }

  /** The byte after the opcode, or 0 when there is none. */
  function Second(bs: seq<bv8>): bv8
  {
    if |bs| > 1 then bs[1] else 0
  }

  /** The encoded length Table 4-12 gives form `f`, from the opcode `b0` and
      the byte `b1` after it. The memory/accumulator MOVs carry a two-byte
      address whatever their w bit. */
  function FormLength(f: Form, b0: bv8, b1: bv8): nat
  {
    var w := b0 & 1 != 0;
    var disp := DispLength(ModField(b1), RmField(b1));
    match f
    case HltForm => 1
    case MovRmReg => 2 + disp
    case MovImmReg => if b0 & 8 != 0 then 3 else 2
    case MovImmRm => 2 + disp + (if w then 2 else 1)
    case MovMemToAcc => 3
    case MovAccToMem => 3
    case ArithRmReg => 2 + disp
    case ArithImmRm => 2 + disp + (if b0 & 3 == 1 then 2 else 1)
    case ArithAcc => if w then 3 else 2
    case CondJump => 2
    case LoopFamily => 2
    case Unknown => 0
  }

  /** The supported arithmetic sub-opcodes: ADD 000, SUB 101, CMP 111. */
  predicate SupportedArith(code: bv8)
  {
    code == 0 || code == 5 || code == 7
  }

  /** Whether the arithmetic forms carry a supported sub-opcode (in the
      opcode for r/m and accumulator forms, in the reg field of the second
      byte for the immediate form). */
  predicate SubOpcodeSupported(f: Form, b0: bv8, b1: bv8)
  {
    match f
    case ArithRmReg => SupportedArith(RegField(b0))
    case ArithAcc => SupportedArith(RegField(b0))
    case ArithImmRm => SupportedArith(RegField(b1))
    case _ => true
  }

  /** The arithmetic operation of an ADD, SUB or CMP. */
  function ArithOpOf(i: Inst): Option<ArithOp>
  {
    match i
    case ADD(_, _) => Some(ArithAdd)
    case SUB(_, _) => Some(ArithSub)
    case CMP(_, _) => Some(ArithCmp)
    case _ => None
  }

  /** The instruction kind each form produces. */
  predicate KindMatches(f: Form, b0: bv8, b1: bv8, i: Inst)
  {
    match f
    case HltForm => i == HLT
    case MovRmReg => i.MOV?
    case MovImmReg => i.MOV? && i.dst.Reg? && RegisterCode(i.dst.reg) == b0 & 7
    case MovImmRm => i.MOV?
    case MovMemToAcc => i.MOV? && i.dst.Reg? && i.src.MemWord? == (b0 & 1 != 0)
    case MovAccToMem => i.MOV? && i.src.Reg? && i.dst.MemWord? == (b0 & 1 != 0)
    case ArithRmReg => ArithOpOf(i) == ArithFromOpcode(RegField(b0))
    case ArithImmRm => ArithOpOf(i) == ArithFromOpcode(RegField(b1))
    case ArithAcc => ArithOpOf(i) == ArithFromOpcode(RegField(b0))
    case CondJump => i.Jump? && i.cond == JumpCondFromCode(b0 & 15)
    case LoopFamily => i.Loop? && i.kind == LoopKindFromCode(b0 & 3)
    case Unknown => false
  }

  lemma FormFacts(b: bv8)
    ensures FormOf(b) == HltForm <==> b == 0xF4
    ensures FormOf(b) == MovRmReg <==> GetBits(b, 0, 6) == 0x22
    ensures FormOf(b) == MovImmReg <==> GetBits(b, 0, 4) == 0xB
    ensures FormOf(b) == MovImmRm <==> GetBits(b, 0, 7) == 0x63
    ensures FormOf(b) == MovMemToAcc <==> GetBits(b, 0, 7) == 0x50
    ensures FormOf(b) == MovAccToMem <==> GetBits(b, 0, 7) == 0x51
    ensures FormOf(b) == ArithRmReg <==> GetBits(b, 0, 2) == 0 && !GetBit(b, 5)
    ensures FormOf(b) == ArithImmRm <==> GetBits(b, 0, 6) == 0x20
    ensures FormOf(b) == ArithAcc <==> GetBits(b, 0, 2) == 0 && GetBits(b, 5, 2) == 2
    ensures FormOf(b) == CondJump <==> GetBits(b, 0, 4) == 0x7
    ensures FormOf(b) == LoopFamily <==> GetBits(b, 0, 6) == 0x38
  {
    FormIs(b, 0); FormIs(b, 1); FormIs(b, 2); FormIs(b, 3); FormIs(b, 4); FormIs(b, 5);
    FormIs(b, 6); FormIs(b, 7); FormIs(b, 8); FormIs(b, 9); FormIs(b, 10);
    MovPatternBits(b);
    ArithPatternBits(b);
  }

  /** A byte has the form of a pattern exactly when it matches it. */
  lemma FormIs(b: bv8, i: nat)
    requires i < |PATTERNS|
    ensures FormOf(b) == PATTERNS[i].2 <==> MatchesPattern(b, i)
  {
    if MatchesPattern(b, i) {
      FormOfMatches(b, i);
    } else {
      FormFromOnlyMatches(b, 0, i);
    }
  }

  /** Only a matching pattern can give its form. */
  lemma {:induction false} FormFromOnlyMatches(b: bv8, k: nat, i: nat)
    requires k <= |PATTERNS| && i < |PATTERNS|
    ensures FormFrom(b, k) == PATTERNS[i].2 ==> k <= i && MatchesPattern(b, i)
    decreases |PATTERNS| - k
  {
    PatternIndexOf(i);
    if k < |PATTERNS| {
      PatternIndexOf(k);
      if !MatchesPattern(b, k) {
        FormFromOnlyMatches(b, k + 1, i);
      }
    }
  }

  /** The position of each form in the table; `Unknown` is past its end. */
  function PatternIndex(f: Form): nat
  {
    match f
    case HltForm => 0
    case MovRmReg => 1
    case MovImmReg => 2
    case MovImmRm => 3
    case MovMemToAcc => 4
    case MovAccToMem => 5
    case ArithRmReg => 6
    case ArithImmRm => 7
    case ArithAcc => 8
    case CondJump => 9
    case LoopFamily => 10
    case Unknown => 11
  }

  /** The table lists each form once, at its position. */
  lemma PatternIndexOf(k: nat)
    requires k < |PATTERNS|
    ensures PatternIndex(PATTERNS[k].2) == k
  {
  }

  /** The HLT and MOV patterns written as tests on the decoder's bit fields. */
  lemma MovPatternBits(b: bv8)
    ensures MatchesPattern(b, 0) <==> b == 0xF4
    ensures MatchesPattern(b, 1) <==> GetBits(b, 0, 6) == 0x22
    ensures MatchesPattern(b, 2) <==> GetBits(b, 0, 4) == 0xB
    ensures MatchesPattern(b, 3) <==> GetBits(b, 0, 7) == 0x63
    ensures MatchesPattern(b, 4) <==> GetBits(b, 0, 7) == 0x50
    ensures MatchesPattern(b, 5) <==> GetBits(b, 0, 7) == 0x51
  {
  }

  /** The arithmetic, jump and loop patterns written as tests on the
      decoder's bit fields. */
  lemma ArithPatternBits(b: bv8)
    ensures MatchesPattern(b, 6) <==> GetBits(b, 0, 2) == 0 && !GetBit(b, 5)
    ensures MatchesPattern(b, 7) <==> GetBits(b, 0, 6) == 0x20
    ensures MatchesPattern(b, 8) <==> GetBits(b, 0, 2) == 0 && GetBits(b, 5, 2) == 2
    ensures MatchesPattern(b, 9) <==> GetBits(b, 0, 4) == 0x7
    ensures MatchesPattern(b, 10) <==> GetBits(b, 0, 6) == 0x38
  {
  }

  /** The decoder written as one match on the form of the first byte. */
  function DecodeForm(f: Form, bs: seq<bv8>): Result<Option<(nat, Inst)>>
    requires |bs| >= 1
  {
    match f
    case HltForm => Ok(Some((1, HLT)))
    case MovRmReg => DecodeMovRmReg(bs)
    case MovImmReg => DecodeMovImmReg(bs)
    case MovImmRm => DecodeMovImmRm(bs)
    case MovMemToAcc => DecodeAccMov(false, bs)
    case MovAccToMem => DecodeAccMov(true, bs)
    case ArithRmReg => DecodeArithRmReg(bs)
    case ArithImmRm => DecodeArithImmRm(bs)
    case ArithAcc => DecodeArithAcc(bs)
    case CondJump => DecodeJump(bs)
    case LoopFamily => DecodeLoop(bs)
    case Unknown => Ok(None)
  }

  /** The decoder's chain of bit tests is the match on `FormOf`. */
  lemma Dispatch(bs: seq<bv8>)
    requires |bs| >= 1
    ensures FromEncoding(bs) == DecodeForm(FormOf(bs[0]), bs)
  {
    FormFacts(bs[0]);
    FieldsAsMasks(bs[0]);
  }

  /** Decoding bytes whose first byte has form `f` is decoding them as `f`. */
  lemma DecodesVia(bs: seq<bv8>, f: Form, r: Result<Option<(nat, Inst)>>)
    requires |bs| >= 1 && FormOf(bs[0]) == f && DecodeForm(f, bs) == r
    ensures FromEncoding(bs) == r
  {
    Dispatch(bs);
  }

  /** What the table promises of the outcome `r` of decoding `bs` as form `f`. */
  predicate Agrees(f: Form, bs: seq<bv8>, r: Result<Option<(nat, Inst)>>)
    requires |bs| >= 1
  {
    OutcomeAgrees(f, bs, r) && ShapeAgrees(f, bs, r)
  }

  /** Only an unknown form gives `Ok(None)`; a known one succeeds exactly
      when the bytes hold the whole instruction and its sub-opcode is
      supported. */
  predicate OutcomeAgrees(f: Form, bs: seq<bv8>, r: Result<Option<(nat, Inst)>>)
    requires |bs| >= 1
  {
    var b0, b1 := bs[0], Second(bs);
    && (r == Ok(None) <==> f == Unknown)
    && (f != Unknown ==> (r.Ok? <==> |bs| >= FormLength(f, b0, b1) && SubOpcodeSupported(f, b0, b1)))
  }

  /** A decoded instruction has the form's length and kind. */
  predicate ShapeAgrees(f: Form, bs: seq<bv8>, r: Result<Option<(nat, Inst)>>)
    requires |bs| >= 1
  {
    var b0, b1 := bs[0], Second(bs);
    r.Ok? && r.value.Some? ==> r.value.value.0 == FormLength(f, b0, b1) && KindMatches(f, b0, b1, r.value.value.1)
  }

  lemma FormAgrees(f: Form, bs: seq<bv8>)
    requires |bs| >= 1
    ensures Agrees(f, bs, DecodeForm(f, bs))
  {
    match f
    case MovRmReg => MovRmRegAgrees(bs);
    case MovImmReg => MovImmRegAgrees(bs);
    case MovImmRm => MovImmRmAgrees(bs);
    case ArithRmReg => ArithRmRegAgrees(bs);
    case ArithImmRm => ArithImmRmAgrees(bs);
    case ArithAcc => ArithAccAgrees(bs);
    case MovMemToAcc => AccMovAgrees(false, bs);
    case MovAccToMem => AccMovAgrees(true, bs);
    case CondJump => JumpAgrees(bs);
    case LoopFamily => LoopAgrees(bs);
    case _ =>
  }

  lemma MovRmRegAgrees(bs: seq<bv8>)
    requires |bs| >= 1
    ensures Agrees(MovRmReg, bs, DecodeMovRmReg(bs))
  {
    FieldsAsMasks(Second(bs));
  }

  lemma MovImmRegAgrees(bs: seq<bv8>)
    requires |bs| >= 1
    ensures Agrees(MovImmReg, bs, DecodeMovImmReg(bs))
  {
    FieldsAsMasks(bs[0]);
  }

  /** The length `ImmToRm` computes from the bit fields is the table's. */
  lemma ImmToRmLength(b0: bv8, b1: bv8)
    ensures 2 + DispLength(GetBits(b1, 0, 2), GetBits(b1, 5, 3)) + DataLength(GetBit(b0, 6), GetBit(b0, 7))
            == FormLength(ArithImmRm, b0, b1)
    ensures 2 + DispLength(GetBits(b1, 0, 2), GetBits(b1, 5, 3)) + DataLength(false, GetBit(b0, 7))
            == FormLength(MovImmRm, b0, b1)
  {
    FieldsAsMasks(b0);
    FieldsAsMasks(b1);
  }

  lemma MovImmRmAgrees(bs: seq<bv8>)
    requires |bs| >= 1
    ensures Agrees(MovImmRm, bs, DecodeMovImmRm(bs))
  {
    if |bs| >= 2 {
      assert Second(bs) == bs[1];
      ImmToRmSucceeds(false, bs);
    }
  }

  lemma AccMovAgrees(flip: bool, bs: seq<bv8>)
    requires |bs| >= 1
    ensures Agrees(if flip then MovAccToMem else MovMemToAcc, bs, DecodeAccMov(flip, bs))
  {
  }

  /** The sub-opcode field the decoder reads is the reg field. */
  lemma RegFieldIs(b: bv8)
    ensures GetBits(b, 2, 3) == RegField(b)
  {
    FieldsAsMasks(b);
  }

  lemma ArithRmRegAgrees(bs: seq<bv8>)
    requires |bs| >= 1
    ensures Agrees(ArithRmReg, bs, DecodeArithRmReg(bs))
  {
    ArithRmRegOutcome(bs);
    ArithRmRegShape(bs);
  }

  lemma ArithRmRegOutcome(bs: seq<bv8>)
    requires |bs| >= 1
    ensures OutcomeAgrees(ArithRmReg, bs, DecodeArithRmReg(bs))
  {
    RegFieldIs(bs[0]);
    if |bs| >= 2 {
      assert Second(bs) == bs[1];
    }
  }

  lemma ArithRmRegShape(bs: seq<bv8>)
    requires |bs| >= 1
    ensures ShapeAgrees(ArithRmReg, bs, DecodeArithRmReg(bs))
  {
    RegFieldIs(bs[0]);
    if |bs| >= 2 {
      assert Second(bs) == bs[1];
    }
  }

  lemma ArithImmRmAgrees(bs: seq<bv8>)
    requires |bs| >= 1
    ensures Agrees(ArithImmRm, bs, DecodeArithImmRm(bs))
  {
    ArithImmRmOutcome(bs);
    ArithImmRmShape(bs);
  }

  /** `ImmToRm` succeeds exactly when the table's length is available. */
  lemma ImmToRmSucceeds(arith: bool, bs: seq<bv8>)
    requires |bs| >= 2
    ensures ImmToRm(arith, bs).Ok? <==> |bs| >= FormLength(if arith then ArithImmRm else MovImmRm, bs[0], bs[1])
    ensures ImmToRm(arith, bs).Ok? ==> ImmToRm(arith, bs).value.0 == FormLength(if arith then ArithImmRm else MovImmRm, bs[0], bs[1])
  {
    ImmToRmLength(bs[0], bs[1]);
  }

  lemma ArithImmRmOutcome(bs: seq<bv8>)
    requires |bs| >= 1
    ensures OutcomeAgrees(ArithImmRm, bs, DecodeArithImmRm(bs))
  {
    if |bs| >= 2 {
      assert Second(bs) == bs[1];
      RegFieldIs(bs[1]);
      ImmToRmSucceeds(true, bs);
      assert DecodeArithImmRm(bs).Ok? <==> ExpectArith(GetBits(bs[1], 2, 3)).Ok? && ImmToRm(true, bs).Ok?;
    }
  }

  lemma ArithImmRmShape(bs: seq<bv8>)
    requires |bs| >= 1
    ensures ShapeAgrees(ArithImmRm, bs, DecodeArithImmRm(bs))
  {
    if |bs| >= 2 {
      assert Second(bs) == bs[1];
      RegFieldIs(bs[1]);
      ImmToRmSucceeds(true, bs);
    }
  }

  lemma ArithAccAgrees(bs: seq<bv8>)
    requires |bs| >= 1
    ensures Agrees(ArithAcc, bs, DecodeArithAcc(bs))
  {
    ArithAccOutcome(bs);
    ArithAccShape(bs);
  }

  lemma ArithAccOutcome(bs: seq<bv8>)
    requires |bs| >= 1
    ensures OutcomeAgrees(ArithAcc, bs, DecodeArithAcc(bs))
  {
    RegFieldIs(bs[0]);
  }

  lemma ArithAccShape(bs: seq<bv8>)
    requires |bs| >= 1
    ensures ShapeAgrees(ArithAcc, bs, DecodeArithAcc(bs))
  {
    RegFieldIs(bs[0]);
  }

  lemma JumpAgrees(bs: seq<bv8>)
    requires |bs| >= 1
    ensures Agrees(CondJump, bs, DecodeJump(bs))
  {
    FieldsAsMasks(bs[0]);
  }

  lemma LoopAgrees(bs: seq<bv8>)
    requires |bs| >= 1
    ensures Agrees(LoopFamily, bs, DecodeLoop(bs))
  {
    FieldsAsMasks(bs[0]);
  }

  /** The decoder agrees with the table: a first byte no pattern matches
      gives `Ok(None)`; otherwise decoding succeeds exactly when the bytes
      hold the whole instruction and an arithmetic sub-opcode is supported,
      and then it consumes `FormLength` bytes and builds an instruction of
      the form's kind. An empty slice panics. */
  lemma {:induction false} DecodeMatchesTable(bs: seq<bv8>)
    ensures |bs| == 0 ==> FromEncoding(bs).Panic?
    ensures |bs| >= 1 ==> Agrees(FormOf(bs[0]), bs, FromEncoding(bs))
  {
    if |bs| >= 1 {
      Dispatch(bs);
      FormAgrees(FormOf(bs[0]), bs);
    }
  }

  // ---------------------------------------------------------------------------
  // Two's-complement bytes, the inverses of `SignedByte`, `SignedWord` and
  // `LeWord`.

  /** The unsigned 16-bit reading of a signed displacement. */
  function Unsigned16(d: I16): (u: int)
    ensures 0 <= u < 0x10000
    ensures d >= 0 ==> u == d
    ensures d < 0 ==> u == d + 0x10000
  {
    if d < 0 then d + 0x10000 else d
  }

  /** The low and high byte of a signed displacement, little-endian. */
  function DispLow(d: I16): bv8 { (Unsigned16(d) % 0x100) as bv8 }
  function DispHigh(d: I16): bv8 { (Unsigned16(d) / 0x100) as bv8 }

  /** The byte that holds a signed 8-bit value. */
  function ByteOf(x: I8): bv8
  {
    (if x < 0 then x + 0x100 else x) as bv8
  }

  /** The low and high byte of a data word. */
  function WordLow(w: bv16): bv8 { (w & 0xFF) as bv8 }
  function WordHigh(w: bv16): bv8 { (w >> 8) as bv8 }

  lemma NatToByte(x: int)
    requires 0 <= x < 0x100
    ensures (x as bv8) as int == x
  {
    assert x % 0x100 == x;
  }

  lemma WidenByte(b: bv8)
    ensures (b as bv16) as int == b as int
  {
  }

  lemma ByteValue(x: int, b: bv8)
    requires 0 <= x < 0x100 && b == x as bv8
    ensures b as int == x
    ensures (b as bv16) as int == x
  {
    NatToByte(x);
    WidenByte(b);
  }

  lemma SplitWord(w: bv16)
    ensures w as int == (w & 0xFF) as int + 0x100 * (w >> 8) as int
  {
  }

  lemma WordValue(lo: bv8, hi: bv8, x: int, y: int)
    requires (lo as bv16) as int == x && (hi as bv16) as int == y
    ensures LeWord(lo, hi) as int == x + 0x100 * y
  {
    SplitWord(LeWord(lo, hi));
  }

  lemma SignedByteOfValue(b: bv8, v: int)
    requires b as int == v
    ensures SignedByte(b) == if v < 0x80 then v else v - 0x100
  {
  }

  lemma DispLowValue(d: I16)
    ensures (DispLow(d) as bv16) as int == Unsigned16(d) % 0x100
  {
    ByteValue(Unsigned16(d) % 0x100, DispLow(d));
  }

  lemma DispHighValue(d: I16)
    ensures (DispHigh(d) as bv16) as int == Unsigned16(d) / 0x100
  {
    ByteValue(Unsigned16(d) / 0x100, DispHigh(d));
  }

  lemma SignedWordOfValue(lo: bv8, hi: bv8, d: I16)
    requires (lo as bv16) as int == Unsigned16(d) % 0x100
    requires (hi as bv16) as int == Unsigned16(d) / 0x100
    ensures SignedWord(LeWord(lo, hi)) == d
  {
    var u := Unsigned16(d);
    WordValue(lo, hi, u % 0x100, u / 0x100);
    assert LeWord(lo, hi) as int == u;
  }

  /** A displacement written as two bytes reads back as itself. */
  lemma {:induction false} DispRoundTrip(d: I16)
    ensures SignedWord(LeWord(DispLow(d), DispHigh(d))) == d
  {
    DispLowValue(d);
    DispHighValue(d);
    SignedWordOfValue(DispLow(d), DispHigh(d), d);
  }

  /** A signed byte written as a byte reads back as itself. */
  lemma {:induction false} ByteRoundTrip(x: I8)
    ensures SignedByte(ByteOf(x)) == x
  {
    var v := if x < 0 then x + 0x100 else x;
    ByteValue(v, ByteOf(x));
    SignedByteOfValue(ByteOf(x), v);
  }

  /** A data word split into bytes and joined again is unchanged. */
  lemma WordRoundTrip(w: bv16)
    ensures LeWord(WordLow(w), WordHigh(w)) == w
  {
  }

  // ---------------------------------------------------------------------------
  // Reference encoding of effective addresses and r/m operands.

  /** The r/m code of a base/index pair of the effective-address table. */
  function EaCode(base: Option<Register>, index: Option<Register>): Option<bv8>
  {
    match (base, index)
    case (Some(BX), Some(SI)) => Some(0)
    case (Some(BX), Some(DI)) => Some(1)
    case (Some(BP), Some(SI)) => Some(2)
    case (Some(BP), Some(DI)) => Some(3)
    case (Some(SI), None) => Some(4)
    case (Some(DI), None) => Some(5)
    case (Some(BP), None) => Some(6)
    case (Some(BX), None) => Some(7)
    case _ => None
  }

  /** `EaCode` and the decoder's table are inverse to each other. */
  lemma EaCodeInverse(rm: bv8, base: Option<Register>, index: Option<Register>)
    requires rm < 8
    ensures EaCode(EaTableEntry(rm).base, EaTableEntry(rm).index) == Some(rm)
    ensures EaCode(base, index) == Some(rm) ==>
              EaTableEntry(rm).base == base && EaTableEntry(rm).index == index
  {
  }

  /** The addresses the 8086 can encode and the decoder can produce: a
      direct address, or a table entry with no displacement or a non-zero
      one (a zero displacement is normalised away). */
  predicate EncodableEa(ea: EffAddr)
  {
    IsDirect(ea) || (EaCode(ea.base, ea.index).Some? && (ea.offset.None? || ea.offset.value != 0))
  }

  /** mod, r/m and displacement bytes of an address: the direct form for a
      direct address; `[bp]` through mod=01 with a zero byte, since mod=00
      r/m=110 is the direct form; otherwise the shortest displacement. */
  function EncodeEa(ea: EffAddr): (e: (bv8, bv8, seq<bv8>))
    requires EncodableEa(ea)
    ensures e.0 < 3 && e.1 < 8 && |e.2| == DispLength(e.0, e.1)
  {
    if IsDirect(ea) then
      (0, 6, [DispLow(ea.offset.value), DispHigh(ea.offset.value)])
    else
      var rm := EaCode(ea.base, ea.index).value;
      match ea.offset
      case None => if rm == 6 then (1, 6, [0]) else (0, rm, [])
      case Some(d) =>
        if -0x80 <= d < 0x80 then (1, rm, [ByteOf(d)])
        else (2, rm, [DispLow(d), DispHigh(d)])
  }

  /** Decoding the encoding of an address gives the address back, whatever
      bytes follow. */
  lemma {:induction false} EaRoundTrip(ea: EffAddr, rest: seq<bv8>)
    requires EncodableEa(ea)
    ensures EffAddrFromEncoding(EncodeEa(ea).1, EncodeEa(ea).0, EncodeEa(ea).2 + rest)
              == Ok((|EncodeEa(ea).2|, ea))
  {
    if IsDirect(ea) {
      DirectRoundTrip(ea.offset.value, rest);
    } else {
      var rm := EaCode(ea.base, ea.index).value;
      EaCodeInverse(rm, ea.base, ea.index);
      match ea.offset
      case None => TableRoundTrip(rm, rest);
      case Some(d) =>
        if -0x80 <= d < 0x80 {
          Disp8RoundTrip(rm, d, rest);
        } else {
          Disp16RoundTrip(rm, d, rest);
        }
    }
  }

  lemma DirectRoundTrip(d: I16, rest: seq<bv8>)
    ensures EffAddrFromEncoding(6, 0, [DispLow(d), DispHigh(d)] + rest)
              == Ok((2, EffAddr(None, None, Some(d))))
  {
    DispRoundTrip(d);
  }

  lemma TableRoundTrip(rm: bv8, rest: seq<bv8>)
    requires rm < 8
    ensures rm == 6 ==> EffAddrFromEncoding(6, 1, [0] + rest) == Ok((1, EaTableEntry(6)))
    ensures rm != 6 ==> EffAddrFromEncoding(rm, 0, rest) == Ok((0, EaTableEntry(rm)))
  {
    if rm == 6 {
      assert SignedByte(0) == 0;
    }
  }

  lemma Disp8RoundTrip(rm: bv8, d: I16, rest: seq<bv8>)
    requires rm < 8 && d != 0 && -0x80 <= d < 0x80
    ensures EffAddrFromEncoding(rm, 1, [ByteOf(d)] + rest)
              == Ok((1, EaTableEntry(rm).(offset := Some(d))))
  {
    ByteRoundTrip(d);
  }

  lemma Disp16RoundTrip(rm: bv8, d: I16, rest: seq<bv8>)
    requires rm < 8 && d != 0
    ensures EffAddrFromEncoding(rm, 2, [DispLow(d), DispHigh(d)] + rest)
              == Ok((2, EaTableEntry(rm).(offset := Some(d))))
  {
    DispRoundTrip(d);
  }

  /** A register or memory operand of the given width that mod/rm can name. */
  predicate RmOperand(op: Operand, wide: bool)
  {
    || (op.Reg? && IsWide(op.reg) == wide)
    || (op.MemWord? && wide && EncodableEa(op.ea))
    || (op.MemByte? && !wide && EncodableEa(op.ea))
  }

  /** mod, r/m and displacement bytes of a register or memory operand. */
  function EncodeRm(op: Operand): (e: (bv8, bv8, seq<bv8>))
    requires op.Reg? || ((op.MemByte? || op.MemWord?) && EncodableEa(op.ea))
    ensures e.0 < 4 && e.1 < 8 && |e.2| == DispLength(e.0, e.1)
  {
    if op.Reg? then (3, RegisterCode(op.reg), []) else EncodeEa(op.ea)
  }

  /** The mod/reg/rm byte: `mm rrr bbb`. */
  function ModRm(mode: bv8, reg: bv8, rm: bv8): bv8
    requires mode < 4 && reg < 8 && rm < 8
  {
    (mode << 6) | (reg << 3) | rm
  }

  lemma ModRmFields(mode: bv8, reg: bv8, rm: bv8)
    requires mode < 4 && reg < 8 && rm < 8
    ensures GetBits(ModRm(mode, reg, rm), 0, 2) == mode
    ensures GetBits(ModRm(mode, reg, rm), 2, 3) == reg
    ensures GetBits(ModRm(mode, reg, rm), 5, 3) == rm
  {
    FieldsAsMasks(ModRm(mode, reg, rm));
  }

  /** A register is determined by its code and its width. */
  lemma RegisterRoundTrip(r: Register)
    ensures RegisterFromEncoding(RegisterCode(r), IsWide(r)) == r
  {
  }

  /** Decoding the mod/rm encoding of an operand gives it back. */
  lemma {:induction false} RmRoundTrip(op: Operand, signExtend: bool, wide: bool, rest: seq<bv8>)
    requires RmFits(op, signExtend, wide)
    ensures OperandFromRm(signExtend, wide, EncodeRm(op).0, EncodeRm(op).1, EncodeRm(op).2 + rest)
              == Ok((|EncodeRm(op).2|, op))
  {
    if op.Reg? {
      RegisterRoundTrip(op.reg);
    } else {
      EaRoundTrip(op.ea, rest);
    }
  }

  /** The bytes of an immediate operand. */
  function EncodeImm(imm: Operand): (bs: seq<bv8>)
    requires imm.ImmByte? || imm.ImmWord?
    ensures |bs| == if imm.ImmWord? then 2 else 1
  {
    if imm.ImmWord? then [WordLow(imm.word), WordHigh(imm.word)] else [imm.byte]
  }

  /** The opcode byte `b0`, then mod/reg/rm naming `reg` and `op`, then the
      displacement of `op`. */
  function RegRmBytes(b0: bv8, reg: Register, op: Operand): (bs: seq<bv8>)
    requires op.Reg? || ((op.MemByte? || op.MemWord?) && EncodableEa(op.ea))
    ensures |bs| == 2 + |EncodeRm(op).2| && bs[0] == b0
  {
    var e := EncodeRm(op);
    [b0, ModRm(e.0, RegisterCode(reg), e.1)] + e.2
  }

  /** `ModRegRm` reads back a register and an r/m operand of its width; the
      d bit of the opcode says which one is the destination. */
  lemma {:induction false} ModRegRmRoundTrip(b0: bv8, reg: Register, op: Operand, rest: seq<bv8>)
    requires RmOperand(op, IsWide(reg)) && IsWide(reg) == (b0 & 1 != 0)
    ensures ModRegRm(RegRmBytes(b0, reg, op) + rest)
              == Ok((|RegRmBytes(b0, reg, op)|, if b0 & 2 != 0 then Reg(reg) else op, if b0 & 2 != 0 then op else Reg(reg)))
  {
    var e := EncodeRm(op);
    RegRmBytesFields(b0, reg, op, rest);
    RegisterRoundTrip(reg);
    RmRoundTrip(op, false, IsWide(reg), rest);
    ModRegRmUnfold(RegRmBytes(b0, reg, op) + rest, e.0, RegisterCode(reg), e.1, IsWide(reg), b0 & 2 != 0);
  }

  lemma RegRmBytesFields(b0: bv8, reg: Register, op: Operand, rest: seq<bv8>)
    requires op.Reg? || ((op.MemByte? || op.MemWord?) && EncodableEa(op.ea))
    ensures var e, bs := EncodeRm(op), RegRmBytes(b0, reg, op) + rest;
            && |bs| >= 2 && GetBit(bs[0], 6) == (b0 & 2 != 0) && GetBit(bs[0], 7) == (b0 & 1 != 0)
            && GetBits(bs[1], 0, 2) == e.0 && GetBits(bs[1], 2, 3) == RegisterCode(reg)
            && GetBits(bs[1], 5, 3) == e.1 && bs[2..] == e.2 + rest
  {
    var e := EncodeRm(op);
    Layout(b0, ModRm(e.0, RegisterCode(reg), e.1), e.2, [], rest);
    assert [b0, ModRm(e.0, RegisterCode(reg), e.1)] + e.2 + [] == RegRmBytes(b0, reg, op);
    ImmToRmOpcode(b0);
    ModRmFields(e.0, RegisterCode(reg), e.1);
  }

  /** `ModRegRm` once its four fields are known. */
  lemma ModRegRmUnfold(bs: seq<bv8>, mode: bv8, reg: bv8, rm: bv8, wide: bool, dest: bool)
    requires |bs| >= 2 && reg < 8
    requires GetBit(bs[0], 6) == dest && GetBit(bs[0], 7) == wide
    requires GetBits(bs[1], 0, 2) == mode && GetBits(bs[1], 2, 3) == reg && GetBits(bs[1], 5, 3) == rm
    ensures ModRegRm(bs) == match OperandFromRm(false, wide, mode, rm, bs[2..])
      case Panic(m) => Panic(m)
      case Ok(t) => Ok((2 + t.0, if dest then OperandFromReg(reg, wide) else t.1, if dest then t.1 else OperandFromReg(reg, wide)))
  {
  }

  /** An r/m operand that `OperandFromRm` reads back under the s and w bits. */
  predicate RmFits(op: Operand, signExtend: bool, wide: bool)
  {
    || (op.Reg? && IsWide(op.reg) == wide)
    || (op.MemWord? && (signExtend || wide) && EncodableEa(op.ea))
    || (op.MemByte? && !signExtend && !wide && EncodableEa(op.ea))
  }

  /** The opcode byte `b0`, then mod/reg/rm with `code` in the reg field and
      `op` in mod and r/m, then the displacement, then the immediate. */
  function ImmToRmBytes(b0: bv8, code: bv8, op: Operand, imm: Operand): (bs: seq<bv8>)
    requires code < 8 && (op.Reg? || ((op.MemByte? || op.MemWord?) && EncodableEa(op.ea)))
    requires imm.ImmByte? || imm.ImmWord?
    ensures |bs| == 2 + |EncodeRm(op).2| + |EncodeImm(imm)| && bs[0] == b0
  {
    var e := EncodeRm(op);
    [b0, ModRm(e.0, code, e.1)] + e.2 + EncodeImm(imm)
  }

  /** `ImmToRm` reads back an r/m operand and the immediate after it. */
  lemma {:induction false} ImmToRmRoundTrip(arith: bool, b0: bv8, code: bv8, op: Operand, imm: Operand, rest: seq<bv8>)
    requires code < 8
    requires RmFits(op, arith && b0 & 2 != 0, b0 & 1 != 0)
    requires if !(arith && b0 & 2 != 0) && b0 & 1 != 0 then imm.ImmWord? else imm.ImmByte?
    ensures ImmToRm(arith, ImmToRmBytes(b0, code, op, imm) + rest)
              == Ok((|ImmToRmBytes(b0, code, op, imm)|, op, imm))
  {
    var bs := ImmToRmBytes(b0, code, op, imm) + rest;
    ImmToRmHead(arith, b0, code, op, imm, rest);
    ImmToRmRead(arith, bs, arith && b0 & 2 != 0, b0 & 1 != 0, |EncodeRm(op).2|, op, imm, rest);
  }

  /** Once `ImmToRm` has read the r/m operand, it reads the immediate. */
  lemma ImmToRmRead(arith: bool, bs: seq<bv8>, signExtend: bool, wide: bool, n: nat, op: Operand, imm: Operand, rest: seq<bv8>)
    requires if !signExtend && wide then imm.ImmWord? else imm.ImmByte?
    requires 2 + n <= |bs| && bs[2 + n..] == EncodeImm(imm) + rest
    requires ImmToRm(arith, bs) == ImmAfterRm(signExtend, wide, Ok((n, op)), bs)
    ensures ImmToRm(arith, bs) == Ok((2 + n + |EncodeImm(imm)|, op, imm))
  {
    ImmAfterRmRoundTrip(signExtend, wide, n, op, imm, rest, bs);
  }

  lemma ImmAfterRmRoundTrip(signExtend: bool, wide: bool, n: nat, op: Operand, imm: Operand, rest: seq<bv8>, bs: seq<bv8>)
    requires if !signExtend && wide then imm.ImmWord? else imm.ImmByte?
    requires 2 + n <= |bs| && bs[2 + n..] == EncodeImm(imm) + rest
    ensures ImmAfterRm(signExtend, wide, Ok((n, op)), bs) == Ok((2 + n + |EncodeImm(imm)|, op, imm))
  {
    DataRoundTrip(signExtend, wide, imm, rest);
  }

  /** The r/m half of `ImmToRm`: it reads `op` back and leaves the immediate. */
  lemma ImmToRmHead(arith: bool, b0: bv8, code: bv8, op: Operand, imm: Operand, rest: seq<bv8>)
    requires code < 8 && RmFits(op, arith && b0 & 2 != 0, b0 & 1 != 0)
    requires imm.ImmByte? || imm.ImmWord?
    ensures var e, bs := EncodeRm(op), ImmToRmBytes(b0, code, op, imm) + rest;
            && ImmToRm(arith, bs) == ImmAfterRm(arith && b0 & 2 != 0, b0 & 1 != 0, Ok((|e.2|, op)), bs)
            && bs[2 + |e.2|..] == EncodeImm(imm) + rest
            && GetBits(bs[1], 2, 3) == code
  {
    var e := EncodeRm(op);
    var bs := ImmToRmBytes(b0, code, op, imm) + rest;
    ImmToRmBytesFields(b0, code, op, imm, rest);
    RmRoundTrip(op, arith && b0 & 2 != 0, b0 & 1 != 0, EncodeImm(imm) + rest);
    ImmToRmUnfold(arith, bs, e.0, e.1, arith && b0 & 2 != 0, b0 & 1 != 0);
  }

  /** `ImmToRm` once its fields are known. */
  lemma ImmToRmUnfold(arith: bool, bs: seq<bv8>, mode: bv8, rm: bv8, signExtend: bool, wide: bool)
    requires |bs| >= 2 && signExtend == (arith && GetBit(bs[0], 6)) && wide == GetBit(bs[0], 7)
    requires GetBits(bs[1], 0, 2) == mode && GetBits(bs[1], 5, 3) == rm
    ensures ImmToRm(arith, bs) == ImmAfterRm(signExtend, wide, OperandFromRm(signExtend, wide, mode, rm, bs[2..]), bs)
  {
  }

  lemma ImmToRmBytesFields(b0: bv8, code: bv8, op: Operand, imm: Operand, rest: seq<bv8>)
    requires code < 8 && (op.Reg? || ((op.MemByte? || op.MemWord?) && EncodableEa(op.ea)))
    requires imm.ImmByte? || imm.ImmWord?
    ensures var e, bs := EncodeRm(op), ImmToRmBytes(b0, code, op, imm) + rest;
            && |bs| >= 2 + |e.2| && GetBit(bs[0], 6) == (b0 & 2 != 0) && GetBit(bs[0], 7) == (b0 & 1 != 0)
            && GetBits(bs[1], 0, 2) == e.0 && GetBits(bs[1], 2, 3) == code && GetBits(bs[1], 5, 3) == e.1
            && bs[2..] == e.2 + (EncodeImm(imm) + rest)
            && bs[2 + |e.2|..] == EncodeImm(imm) + rest
  {
    var e := EncodeRm(op);
    ImmToRmBytesLayout(b0, code, op, imm, rest);
    ImmToRmOpcode(b0);
    ModRmFields(e.0, code, e.1);
  }

  lemma ImmToRmBytesLayout(b0: bv8, code: bv8, op: Operand, imm: Operand, rest: seq<bv8>)
    requires code < 8 && (op.Reg? || ((op.MemByte? || op.MemWord?) && EncodableEa(op.ea)))
    requires imm.ImmByte? || imm.ImmWord?
    ensures var e, bs := EncodeRm(op), ImmToRmBytes(b0, code, op, imm) + rest;
            && bs[0] == b0 && bs[1] == ModRm(e.0, code, e.1)
            && bs[2..] == e.2 + (EncodeImm(imm) + rest)
            && bs[2 + |e.2|..] == EncodeImm(imm) + rest
  {
    var e := EncodeRm(op);
    Layout(b0, ModRm(e.0, code, e.1), e.2, EncodeImm(imm), rest);
  }

  /** Where the parts of `[a, b] + x + y + rest` start. */
  lemma Layout(a: bv8, b: bv8, x: seq<bv8>, y: seq<bv8>, rest: seq<bv8>)
    ensures var bs := [a, b] + x + y + rest;
            && bs[0] == a && bs[1] == b && bs[2..] == x + (y + rest) && bs[2 + |x|..] == y + rest
  {
    var bs := [a, b] + x + y + rest;
    assert bs == [a, b] + (x + (y + rest));
  }

  /** The d (or s) bit and the w bit of an opcode byte. */
  lemma ImmToRmOpcode(b0: bv8)
    ensures GetBit(b0, 6) == (b0 & 2 != 0) && GetBit(b0, 7) == (b0 & 1 != 0)
  {
    FieldsAsMasks(b0);
  }

  /** `OperandFromData` reads back an immediate of the expected size. */
  lemma DataRoundTrip(signExtend: bool, wide: bool, imm: Operand, rest: seq<bv8>)
    requires if !signExtend && wide then imm.ImmWord? else imm.ImmByte?
    ensures OperandFromData(signExtend, wide, EncodeImm(imm) + rest) == Ok((|EncodeImm(imm)|, imm))
  {
    if imm.ImmWord? {
      WordRoundTrip(imm.word);
    }
  }

  // ---------------------------------------------------------------------------
  // Reference assembler.

  function WBit(wide: bool): bv8 { if wide then 1 else 0 }

  function ArithCode(op: ArithOp): (c: bv8)
    ensures c < 8 && ArithFromOpcode(c) == Some(op)
  {
    match op
    case ArithAdd => 0
    case ArithSub => 5
    case ArithCmp => 7
  }

  function CondCode(c: JumpCond): (x: bv8)
    ensures x < 16
  {
    match c
    case JO => 0 case JNO => 1 case JB => 2 case JNB => 3
    case JE => 4 case JNE => 5 case JBE => 6 case JNBE => 7
    case JS => 8 case JNS => 9 case JP => 10 case JNP => 11
    case JL => 12 case JNL => 13 case JLE => 14 case JNLE => 15
  }

  function LoopCode(k: LoopKind): (x: bv8)
    ensures x < 4
  {
    match k
    case LOOPNZ => 0 case LOOPZ => 1 case LOOP => 2 case JCXZ => 3
  }

  /** A register and an r/m operand of its width, in either order. */
  predicate RegRm(dst: Operand, src: Operand)
  {
    || (dst.Reg? && RmOperand(src, IsWide(dst.reg)))
    || (!dst.Reg? && src.Reg? && RmOperand(dst, IsWide(src.reg)))
  }

  /** An r/m destination and an immediate source: a word immediate needs a
      word destination; a byte immediate goes with a byte destination, and
      for the arithmetic forms also with a word one (the s bit). */
  predicate ImmFits(dst: Operand, src: Operand, arith: bool)
  {
    || (src.ImmWord? && RmOperand(dst, true))
    || (src.ImmByte? && (RmOperand(dst, false) || (arith && RmOperand(dst, true))))
  }

  /** The instructions the decoder can produce. */
  predicate WellFormed(i: Inst)
  {
    match i
    case MOV(dst, src) => RegRm(dst, src) || ImmFits(dst, src, false)
    case ADD(dst, src) => RegRm(dst, src) || ImmFits(dst, src, true)
    case SUB(dst, src) => RegRm(dst, src) || ImmFits(dst, src, true)
    case CMP(dst, src) => RegRm(dst, src) || ImmFits(dst, src, true)
    case Jump(_, target) => target.RelOffsetByte?
    case Loop(_, target) => target.RelOffsetByte?
    case HLT => true
  }

  /** `opcode-with-d-and-w, mod reg rm, displacement` for a register and an
      r/m operand; `base` is the opcode with d = w = 0. */
  function EncodeRegRm(base: bv8, dst: Operand, src: Operand): seq<bv8>
    requires RegRm(dst, src)
  {
    if dst.Reg? then RegRmBytes(base | 2 | WBit(IsWide(dst.reg)), dst.reg, src)
    else RegRmBytes(base | WBit(IsWide(src.reg)), src.reg, dst)
  }

  function EncodeMov(dst: Operand, src: Operand): seq<bv8>
    requires RegRm(dst, src) || ImmFits(dst, src, false)
  {
    if RegRm(dst, src) then EncodeRegRm(0x88, dst, src)
    else if dst.Reg? then [0xB0 | (if src.ImmWord? then 8 else 0) | RegisterCode(dst.reg)] + EncodeImm(src)
    else ImmToRmBytes(0xC6 | WBit(src.ImmWord?), 0, dst, src)
  }

  function EncodeArith(op: ArithOp, dst: Operand, src: Operand): seq<bv8>
    requires RegRm(dst, src) || ImmFits(dst, src, true)
  {
    if RegRm(dst, src) then EncodeRegRm(ArithCode(op) << 3, dst, src)
    else ImmToRmBytes(ArithImmOpcode(dst, src), ArithCode(op), dst, src)
  }

  /** `100000sw`: s is set for a byte immediate with a word destination. */
  function ArithImmOpcode(dst: Operand, src: Operand): bv8
  {
    if src.ImmWord? then 0x81 else if RmOperand(dst, false) then 0x80 else 0x83
  }

  /** The reference assembler. */
  function Encode(i: Inst): seq<bv8>
    requires WellFormed(i)
  {
    match i
    case MOV(dst, src) => EncodeMov(dst, src)
    case ADD(dst, src) => EncodeArith(ArithAdd, dst, src)
    case SUB(dst, src) => EncodeArith(ArithSub, dst, src)
    case CMP(dst, src) => EncodeArith(ArithCmp, dst, src)
    case Jump(cond, target) => [0x70 | CondCode(cond), ByteOf(target.rel)]
    case Loop(kind, target) => [0xE0 | LoopCode(kind), ByteOf(target.rel)]
    case HLT => [0xF4]
  }

  // ---------------------------------------------------------------------------
  // Decoding the reference encoding.

  lemma OpcodeBits(base: bv8, wide: bool)
    requires base & 3 == 0
    ensures (base | 2 | WBit(wide)) & 1 != 0 <==> wide
    ensures (base | WBit(wide)) & 1 != 0 <==> wide
    ensures (base | 2 | WBit(wide)) & 2 != 0 && (base | WBit(wide)) & 2 == 0
    ensures (base | 2 | WBit(wide)) & 0xFC == base && (base | WBit(wide)) & 0xFC == base
  {
  }

  lemma {:induction false} RegRmRoundTrip(base: bv8, dst: Operand, src: Operand, rest: seq<bv8>)
    requires base & 3 == 0 && RegRm(dst, src)
    ensures EncodeRegRm(base, dst, src)[0] & 0xFC == base
    ensures ModRegRm(EncodeRegRm(base, dst, src) + rest) == Ok((|EncodeRegRm(base, dst, src)|, dst, src))
  {
    if dst.Reg? {
      RegDstRoundTrip(base, dst, src, rest);
    } else {
      RegSrcRoundTrip(base, dst, src, rest);
    }
  }

  lemma RegDstRoundTrip(base: bv8, dst: Operand, src: Operand, rest: seq<bv8>)
    requires base & 3 == 0 && dst.Reg? && RmOperand(src, IsWide(dst.reg))
    ensures EncodeRegRm(base, dst, src)[0] & 0xFC == base
    ensures ModRegRm(EncodeRegRm(base, dst, src) + rest) == Ok((|EncodeRegRm(base, dst, src)|, dst, src))
  {
    OpcodeBits(base, IsWide(dst.reg));
    ModRegRmRoundTrip(base | 2 | WBit(IsWide(dst.reg)), dst.reg, src, rest);
  }

  lemma RegSrcRoundTrip(base: bv8, dst: Operand, src: Operand, rest: seq<bv8>)
    requires base & 3 == 0 && !dst.Reg? && src.Reg? && RmOperand(dst, IsWide(src.reg))
    ensures EncodeRegRm(base, dst, src)[0] & 0xFC == base
    ensures ModRegRm(EncodeRegRm(base, dst, src) + rest) == Ok((|EncodeRegRm(base, dst, src)|, dst, src))
  {
    OpcodeBits(base, IsWide(src.reg));
    ModRegRmRoundTrip(base | WBit(IsWide(src.reg)), src.reg, dst, rest);
  }

  lemma {:induction false} MovRegRmRoundTrip(dst: Operand, src: Operand, rest: seq<bv8>)
    requires RegRm(dst, src)
    ensures var bs := EncodeMov(dst, src) + rest;
            FromEncoding(bs) == Ok(Some((|EncodeMov(dst, src)|, MOV(dst, src))))
  {
    MovRegRmHead(dst, src, rest);
    DecodesVia(EncodeMov(dst, src) + rest, MovRmReg, Ok(Some((|EncodeMov(dst, src)|, MOV(dst, src)))));
  }

  lemma MovRegRmHead(dst: Operand, src: Operand, rest: seq<bv8>)
    requires RegRm(dst, src)
    ensures var bs := EncodeMov(dst, src) + rest;
            |bs| >= 1 && FormOf(bs[0]) == MovRmReg
            && DecodeForm(MovRmReg, bs) == Ok(Some((|EncodeMov(dst, src)|, MOV(dst, src))))
  {
    var bs := EncodeMov(dst, src) + rest;
    RegRmRoundTrip(0x88, dst, src, rest);
    FormOfMatches(bs[0], 1);
  }

  lemma {:induction false} MovImmRegRoundTrip(dst: Operand, src: Operand, rest: seq<bv8>)
    requires !RegRm(dst, src) && ImmFits(dst, src, false) && dst.Reg?
    ensures var bs := EncodeMov(dst, src) + rest;
            FromEncoding(bs) == Ok(Some((|EncodeMov(dst, src)|, MOV(dst, src))))
  {
    MovImmRegHead(dst, src, rest);
    DecodesVia(EncodeMov(dst, src) + rest, MovImmReg, Ok(Some((|EncodeMov(dst, src)|, MOV(dst, src)))));
  }

  lemma MovImmRegHead(dst: Operand, src: Operand, rest: seq<bv8>)
    requires !RegRm(dst, src) && ImmFits(dst, src, false) && dst.Reg?
    ensures var bs := EncodeMov(dst, src) + rest;
            |bs| >= 1 && FormOf(bs[0]) == MovImmReg
            && DecodeForm(MovImmReg, bs) == Ok(Some((|EncodeMov(dst, src)|, MOV(dst, src))))
  {
    var code := RegisterCode(dst.reg);
    var b0: bv8 := 0xB0 | (if src.ImmWord? then 8 else 0) | code;
    var bs := EncodeMov(dst, src) + rest;
    assert EncodeMov(dst, src) == [b0] + EncodeImm(src);
    assert bs[0] == b0 && bs[1..] == EncodeImm(src) + rest;
    MovImmRegOpcode(src.ImmWord?, code);
    DataRoundTrip(false, src.ImmWord?, src, rest);
    RegisterRoundTrip(dst.reg);
  }

  /** The fields of the opcode `1011wrrr`. */
  lemma MovImmRegOpcode(wide: bool, code: bv8)
    requires code < 8
    ensures var b0: bv8 := 0xB0 | (if wide then 8 else 0) | code;
            GetBit(b0, 4) == wide && GetBits(b0, 5, 3) == code && FormOf(b0) == MovImmReg
  {
    var b0: bv8 := 0xB0 | (if wide then 8 else 0) | code;
    assert b0 & 8 != 0 <==> wide;
    assert b0 & 7 == code;
    FieldsAsMasks(b0);
    FormOfMatches(b0, 2);
  }

  lemma {:induction false} MovImmRmRoundTrip(dst: Operand, src: Operand, rest: seq<bv8>)
    requires !RegRm(dst, src) && ImmFits(dst, src, false) && !dst.Reg?
    ensures var bs := EncodeMov(dst, src) + rest;
            FromEncoding(bs) == Ok(Some((|EncodeMov(dst, src)|, MOV(dst, src))))
  {
    MovImmRmHead(dst, src, rest);
    DecodesVia(EncodeMov(dst, src) + rest, MovImmRm, Ok(Some((|EncodeMov(dst, src)|, MOV(dst, src)))));
  }

  lemma MovImmRmHead(dst: Operand, src: Operand, rest: seq<bv8>)
    requires !RegRm(dst, src) && ImmFits(dst, src, false) && !dst.Reg?
    ensures var bs := EncodeMov(dst, src) + rest;
            |bs| >= 1 && FormOf(bs[0]) == MovImmRm
            && DecodeForm(MovImmRm, bs) == Ok(Some((|EncodeMov(dst, src)|, MOV(dst, src))))
  {
    var b0 := 0xC6 | WBit(src.ImmWord?);
    assert b0 & 1 != 0 <==> src.ImmWord?;
    ImmToRmRoundTrip(false, b0, 0, dst, src, rest);
    FormOfMatches(b0, 3);
  }

  lemma {:induction false} ArithRegRmRoundTrip(op: ArithOp, dst: Operand, src: Operand, rest: seq<bv8>)
    requires RegRm(dst, src)
    ensures var bs := EncodeArith(op, dst, src) + rest;
            FromEncoding(bs) == Ok(Some((|EncodeArith(op, dst, src)|, NewArithmetic(op, dst, src))))
  {
    ArithRegRmHead(op, dst, src, rest);
    DecodesVia(EncodeArith(op, dst, src) + rest, ArithRmReg,
               Ok(Some((|EncodeArith(op, dst, src)|, NewArithmetic(op, dst, src)))));
  }

  lemma ArithRegRmHead(op: ArithOp, dst: Operand, src: Operand, rest: seq<bv8>)
    requires RegRm(dst, src)
    ensures var bs := EncodeArith(op, dst, src) + rest;
            |bs| >= 1 && FormOf(bs[0]) == ArithRmReg
            && DecodeForm(ArithRmReg, bs) == Ok(Some((|EncodeArith(op, dst, src)|, NewArithmetic(op, dst, src))))
  {
    var base := ArithCode(op) << 3;
    var bs := EncodeArith(op, dst, src) + rest;
    assert base & 3 == 0;
    RegRmRoundTrip(base, dst, src, rest);
    assert bs[0] & 0xC4 == 0 && RegField(bs[0]) == ArithCode(op);
    RegFieldIs(bs[0]);
    FormOfMatches(bs[0], 6);
  }

  lemma {:induction false} ArithImmRoundTrip(op: ArithOp, dst: Operand, src: Operand, rest: seq<bv8>)
    requires !RegRm(dst, src) && ImmFits(dst, src, true)
    ensures var bs := EncodeArith(op, dst, src) + rest;
            FromEncoding(bs) == Ok(Some((|EncodeArith(op, dst, src)|, NewArithmetic(op, dst, src))))
  {
    ArithImmHead(op, dst, src, rest);
    DecodesVia(EncodeArith(op, dst, src) + rest, ArithImmRm,
               Ok(Some((|EncodeArith(op, dst, src)|, NewArithmetic(op, dst, src)))));
  }

  lemma ArithImmHead(op: ArithOp, dst: Operand, src: Operand, rest: seq<bv8>)
    requires !RegRm(dst, src) && ImmFits(dst, src, true)
    ensures var bs := EncodeArith(op, dst, src) + rest;
            |bs| >= 1 && FormOf(bs[0]) == ArithImmRm
            && DecodeForm(ArithImmRm, bs) == Ok(Some((|EncodeArith(op, dst, src)|, NewArithmetic(op, dst, src))))
  {
    var b0 := ArithImmOpcode(dst, src);
    var bs := EncodeArith(op, dst, src) + rest;
    ArithImmOpcodeFits(dst, src);
    ImmToRmRoundTrip(true, b0, ArithCode(op), dst, src, rest);
    ImmToRmHead(true, b0, ArithCode(op), dst, src, rest);
    ArithImmUnfold(bs, op, (|EncodeArith(op, dst, src)|, dst, src));
  }

  /** The opcode byte `100000sw` chosen for an immediate and its destination. */
  lemma ArithImmOpcodeFits(dst: Operand, src: Operand)
    requires !RegRm(dst, src) && ImmFits(dst, src, true)
    ensures var b0 := ArithImmOpcode(dst, src);
            && RmFits(dst, b0 & 2 != 0, b0 & 1 != 0)
            && (if !(b0 & 2 != 0) && b0 & 1 != 0 then src.ImmWord? else src.ImmByte?)
            && FormOf(b0) == ArithImmRm
  {
    FormOfMatches(ArithImmOpcode(dst, src), 7);
  }

  /** `DecodeArithImmRm` once its sub-opcode and operands are known. */
  lemma ArithImmUnfold(bs: seq<bv8>, op: ArithOp, t: (nat, Operand, Operand))
    requires |bs| >= 2 && GetBits(bs[1], 2, 3) == ArithCode(op) && ImmToRm(true, bs) == Ok(t)
    ensures DecodeForm(ArithImmRm, bs) == Ok(Some((t.0, NewArithmetic(op, t.1, t.2))))
  {
  }

  lemma CondCodeInverse(c: JumpCond)
    ensures JumpCondFromCode(CondCode(c)) == c
    ensures GetBits(0x70 | CondCode(c), 4, 4) == CondCode(c)
    ensures (0x70 | CondCode(c)) & 0xF0 == 0x70
  {
  }

  lemma LoopCodeInverse(k: LoopKind)
    ensures LoopKindFromCode(LoopCode(k)) == k
    ensures GetBits(0xE0 | LoopCode(k), 6, 2) == LoopCode(k)
    ensures (0xE0 | LoopCode(k)) & 0xFC == 0xE0
  {
  }

  lemma {:induction false} JumpRoundTrip(cond: JumpCond, x: I8, rest: seq<bv8>)
    ensures var i := Jump(cond, RelOffsetByte(x));
            FromEncoding(Encode(i) + rest) == Ok(Some((2, i)))
  {
    var i := Jump(cond, RelOffsetByte(x));
    var bs := Encode(i) + rest;
    CondCodeInverse(cond);
    ByteRoundTrip(x);
    FormOfMatches(bs[0], 9);
    DecodesVia(bs, CondJump, Ok(Some((2, i))));
  }

  lemma {:induction false} LoopRoundTrip(kind: LoopKind, x: I8, rest: seq<bv8>)
    ensures var i := Loop(kind, RelOffsetByte(x));
            FromEncoding(Encode(i) + rest) == Ok(Some((2, i)))
  {
    var i := Loop(kind, RelOffsetByte(x));
    var bs := Encode(i) + rest;
    LoopCodeInverse(kind);
    ByteRoundTrip(x);
    FormOfMatches(bs[0], 10);
    DecodesVia(bs, LoopFamily, Ok(Some((2, i))));
  }

  lemma HltRoundTrip(rest: seq<bv8>)
    ensures FromEncoding(Encode(HLT) + rest) == Ok(Some((1, HLT)))
  {
    var bs := Encode(HLT) + rest;
    FormOfMatches(bs[0], 0);
    DecodesVia(bs, HltForm, Ok(Some((1, HLT))));
  }

  /** Decoding the reference encoding of any instruction the decoder can
      produce gives back the instruction and its length, whatever follows. */
  lemma {:induction false} EncodeDecode(i: Inst, rest: seq<bv8>)
    requires WellFormed(i)
    ensures FromEncoding(Encode(i) + rest) == Ok(Some((|Encode(i)|, i)))
  {
    match i
    case MOV(dst, src) =>
      if RegRm(dst, src) {
        MovRegRmRoundTrip(dst, src, rest);
      } else if dst.Reg? {
        MovImmRegRoundTrip(dst, src, rest);
      } else {
        MovImmRmRoundTrip(dst, src, rest);
      }
    case ADD(dst, src) => ArithRoundTrip(ArithAdd, dst, src, rest);
    case SUB(dst, src) => ArithRoundTrip(ArithSub, dst, src, rest);
    case CMP(dst, src) => ArithRoundTrip(ArithCmp, dst, src, rest);
    case Jump(cond, target) => JumpRoundTrip(cond, target.rel, rest);
    case Loop(kind, target) => LoopRoundTrip(kind, target.rel, rest);
    case HLT => HltRoundTrip(rest);
  }

  lemma ArithRoundTrip(op: ArithOp, dst: Operand, src: Operand, rest: seq<bv8>)
    requires RegRm(dst, src) || ImmFits(dst, src, true)
    ensures FromEncoding(EncodeArith(op, dst, src) + rest)
              == Ok(Some((|EncodeArith(op, dst, src)|, NewArithmetic(op, dst, src))))
  {
    if RegRm(dst, src) {
      ArithRegRmRoundTrip(op, dst, src, rest);
    } else {
      ArithImmRoundTrip(op, dst, src, rest);
    }
  }

  // ---------------------------------------------------------------------------
  // Every decoded instruction is one the reference assembler encodes.

  lemma DecodedEaEncodable(rm: bv8, mode: bv8, disp: seq<bv8>)
    requires rm < 8
    ensures EffAddrFromEncoding(rm, mode, disp).Ok? ==> EncodableEa(EffAddrFromEncoding(rm, mode, disp).value.1)
  {
    var raw := RawEffAddr(rm, mode, disp);
    if raw.Ok? && !IsDirect(raw.value.1) {
      EaCodeInverse(rm, raw.value.1.base, raw.value.1.index);
    }
  }

  lemma {:induction false} DecodedRmOperand(signExtend: bool, wide: bool, mode: bv8, rm: bv8, disp: seq<bv8>)
    requires mode < 4 && rm < 8
    ensures var r := OperandFromRm(signExtend, wide, mode, rm, disp);
            r.Ok? ==>
              || (r.value.1.Reg? && IsWide(r.value.1.reg) == wide)
              || (r.value.1.MemWord? && (signExtend || wide) && EncodableEa(r.value.1.ea))
              || (r.value.1.MemByte? && !signExtend && !wide && EncodableEa(r.value.1.ea))
  {
    DecodedEaEncodable(rm, mode, disp);
  }

  lemma {:induction false} ModRegRmShape(bs: seq<bv8>)
    ensures ModRegRm(bs).Ok? ==> RegRm(ModRegRm(bs).value.1, ModRegRm(bs).value.2)
  {
    if |bs| >= 2 {
      DecodedRmOperand(false, GetBit(bs[0], 7), GetBits(bs[1], 0, 2), GetBits(bs[1], 5, 3), bs[2..]);
    }
  }

  lemma {:induction false} ImmToRmShape(arith: bool, bs: seq<bv8>)
    ensures ImmToRm(arith, bs).Ok? ==> ImmFits(ImmToRm(arith, bs).value.1, ImmToRm(arith, bs).value.2, arith)
  {
    if |bs| >= 2 {
      var signExtend := if arith then GetBit(bs[0], 6) else false;
      DecodedRmOperand(signExtend, GetBit(bs[0], 7), GetBits(bs[1], 0, 2), GetBits(bs[1], 5, 3), bs[2..]);
    }
  }

  lemma ConstWithAccShape(flip: bool, isMem: bool, bs: seq<bv8>)
    ensures var r := ConstWithAcc(flip, isMem, bs);
            r.Ok? ==> if isMem || flip then RegRm(r.value.1, r.value.2) else ImmFits(r.value.1, r.value.2, false)
  {
  }

  /** Every instruction the decoder produces is `WellFormed`, so by
      `EncodeDecode` it re-encodes to bytes that decode to it again. */
  lemma {:induction false} DecodeWellFormed(bs: seq<bv8>)
    requires FromEncoding(bs).Ok? && FromEncoding(bs).value.Some?
    ensures WellFormed(FromEncoding(bs).value.value.1)
  {
    Dispatch(bs);
    match FormOf(bs[0])
    case MovRmReg => ModRegRmShape(bs);
    case ArithRmReg => ModRegRmShape(bs);
    case MovImmRm => ImmToRmShape(false, bs);
    case ArithImmRm => ImmToRmShape(true, bs);
    case MovMemToAcc => ConstWithAccShape(false, true, bs);
    case MovAccToMem => ConstWithAccShape(true, true, bs);
    case ArithAcc => ConstWithAccShape(false, false, bs);
    case _ =>
  }

  // ---------------------------------------------------------------------------
  // The decoder as written against the corrected one.

  /** The first bytes of the accumulator MOVs: A0 and A1 load, A2 and A3
      store. */
  lemma AccMovOpcode(b: bv8)
    ensures GetBits(b, 0, 7) == 0x50 <==> b == 0xA0 || b == 0xA1
    ensures GetBits(b, 0, 7) == 0x51 <==> b == 0xA2 || b == 0xA3
  {
  }

  /** The word forms A1 and A3 read a two-byte address whichever way the
      address width is chosen. */
  lemma WideAccAgrees(flip: bool, bs: seq<bv8>)
    requires |bs| >= 1 && bs[0] & 1 != 0
    ensures ConstWithAccAsWritten(flip, true, bs) == ConstWithAcc(flip, true, bs)
  {
    FieldsAsMasks(bs[0]);
  }

  /** Where `FromEncodingAsWritten` and `FromEncoding` part. On A1 and A3
      they agree. On A0 and A2 the code as written reads a one-byte address,
      so it needs two bytes and consumes two where the corrected decoder
      needs and consumes three. On every other first byte they agree
      exactly when the corrected instruction has no zero displacement
      (which only the direct address [0] can have). */
  lemma {:induction false} AsWrittenAgrees(bs: seq<bv8>)
    requires |bs| >= 1
    ensures bs[0] == 0xA1 || bs[0] == 0xA3 ==> FromEncodingAsWritten(bs) == FromEncoding(bs)
    ensures bs[0] == 0xA0 || bs[0] == 0xA2 ==>
      && (FromEncodingAsWritten(bs).Ok? <==> |bs| >= 2)
      && (FromEncodingAsWritten(bs).Ok? ==> FromEncodingAsWritten(bs).value.Some? && FromEncodingAsWritten(bs).value.value.0 == 2)
      && (FromEncoding(bs).Ok? <==> |bs| >= 3)
      && (FromEncoding(bs).Ok? ==> FromEncoding(bs).value.Some? && FromEncoding(bs).value.value.0 == 3)
    ensures !(0xA0 <= bs[0] <= 0xA3) ==>
      (FromEncodingAsWritten(bs) == FromEncoding(bs) <==>
        !(FromEncoding(bs).Ok? && FromEncoding(bs).value.Some? && HasZeroOffset(FromEncoding(bs).value.value.1)))
  {
    AccMovOpcode(bs[0]);
    Dispatch(bs);
    FormFacts(bs[0]);
    var b := bs[0];
    if b == 0xA1 {
      WideAccAgrees(false, bs);
    } else if b == 0xA3 {
      WideAccAgrees(true, bs);
    } else if b == 0xA0 || b == 0xA2 {
      FieldsAsMasks(b);
    } else {
      var d := FromEncoding(bs);
      if d.Ok? && d.value.Some? {
        InstAsWrittenKeeps(d.value.value.1);
      }
    }
  }

  /** No instruction the reference assembler encodes starts with A0 to A3:
      it writes memory operands through mod/reg/rm. */
  lemma EncodeOpcodeNotAcc(i: Inst)
    requires WellFormed(i)
    ensures |Encode(i)| >= 1 && !(0xA0 <= Encode(i)[0] <= 0xA3)
  {
    match i
    case MOV(dst, src) =>
      if RegRm(dst, src) {
      } else if dst.Reg? {
        assert Encode(i)[0] == 0xB0 | (if src.ImmWord? then 8 else 0) | RegisterCode(dst.reg);
      } else {
      }
    case ADD(dst, src) => ArithOpcodeNotAcc(ArithAdd, dst, src);
    case SUB(dst, src) => ArithOpcodeNotAcc(ArithSub, dst, src);
    case CMP(dst, src) => ArithOpcodeNotAcc(ArithCmp, dst, src);
    case Jump(cond, target) =>
    case Loop(kind, target) =>
    case HLT =>
  }

  lemma ArithOpcodeNotAcc(op: ArithOp, dst: Operand, src: Operand)
    requires RegRm(dst, src) || ImmFits(dst, src, true)
    ensures |EncodeArith(op, dst, src)| >= 1 && !(0xA0 <= EncodeArith(op, dst, src)[0] <= 0xA3)
  {
  }

  /** The reference encoding of a well-formed instruction, decoded as
      written: the instruction comes back with its addresses normalised as
      written, so it comes back unchanged exactly when it has no zero
      displacement. */
  lemma {:induction false} EncodeDecodeAsWritten(i: Inst, rest: seq<bv8>)
    requires WellFormed(i)
    ensures FromEncodingAsWritten(Encode(i) + rest) == Ok(Some((|Encode(i)|, InstAsWritten(i))))
    ensures FromEncodingAsWritten(Encode(i) + rest) == Ok(Some((|Encode(i)|, i))) <==> !HasZeroOffset(i)
  {
    var bs := Encode(i) + rest;
    EncodeDecode(i, rest);
    EncodeOpcodeNotAcc(i);
    assert bs[0] == Encode(i)[0];
    AccMovOpcode(bs[0]);
    InstAsWrittenKeeps(i);
  }

  /** `mov ax, [0]` (8B 06 00 00) through the whole decoder: as written its
      address has no component; as intended it is the direct address [0]. */
  lemma DirectZeroDecoded(bs: seq<bv8>)
    requires bs == [0x8B, 0x06, 0, 0]
    ensures FromEncodingAsWritten(bs) == Ok(Some((4, MOV(Reg(AX), MemWord(EffAddr(None, None, None))))))
    ensures FromEncoding(bs) == Ok(Some((4, MOV(Reg(AX), MemWord(EffAddr(None, None, Some(0)))))))
  {
    var i := MOV(Reg(AX), MemWord(EffAddr(None, None, Some(0))));
    DirectZeroEncoding();
    DecodesAs(i, bs);
  }

  /** `mov ax, [0]` at the head of any longer slice, through both
      decoders. */
  lemma DirectZeroPrefix(bs: seq<bv8>)
    requires |bs| >= 4 && bs[..4] == [0x8B, 0x06, 0, 0]
    ensures FromEncoding(bs) == Ok(Some((4, MOV(Reg(AX), MemWord(EffAddr(None, None, Some(0)))))))
    ensures FromEncodingAsWritten(bs) == Ok(Some((4, MOV(Reg(AX), MemWord(EffAddr(None, None, None))))))
  {
    var i := MOV(Reg(AX), MemWord(EffAddr(None, None, Some(0))));
    DirectZeroEncoding();
    assert bs == Encode(i) + bs[4..];
    EncodeDecode(i, bs[4..]);
    EncodeDecodeAsWritten(i, bs[4..]);
    assert InstAsWritten(i) == MOV(Reg(AX), MemWord(EffAddr(None, None, None)));
  }

  /** Both decoders on bytes that are exactly the encoding of `i`. */
  lemma DecodesAs(i: Inst, bs: seq<bv8>)
    requires WellFormed(i) && Encode(i) == bs
    ensures FromEncodingAsWritten(bs) == Ok(Some((|bs|, InstAsWritten(i))))
    ensures FromEncoding(bs) == Ok(Some((|bs|, i)))
  {
    EncodeDecodeAsWritten(i, []);
    EncodeDecode(i, []);
    assert Encode(i) + [] == bs;
  }

  lemma DirectZeroEncoding()
    ensures var i := MOV(Reg(AX), MemWord(EffAddr(None, None, Some(0))));
      WellFormed(i) && Encode(i) == [0x8B, 0x06, 0, 0]
  {
    var i := MOV(Reg(AX), MemWord(EffAddr(None, None, Some(0))));
    assert RegRm(i.dst, i.src);
    assert DispLow(0) == 0 && DispHigh(0) == 0;
  }

  /** `mov al, [16]` (A0 10 00) through the whole decoder: two bytes as
      written, three as intended. */
  lemma ByteAccDecoded()
    ensures FromEncodingAsWritten([0xA0, 0x10, 0x00]) == Ok(Some((2, MOV(Reg(AL), MemByte(EffAddr(None, None, Some(16)))))))
    ensures FromEncoding([0xA0, 0x10, 0x00]) == Ok(Some((3, MOV(Reg(AL), MemByte(EffAddr(None, None, Some(16)))))))
  {
    ByteAccAddressIntended();
    assert SignedWord(LeWord(0x10, 0)) == 16;
    AccMovOpcode(0xA0);
    Dispatch([0xA0, 0x10, 0x00]);
    FormFacts(0xA0);
  }
}
