# computer_enhance core, modelled in Dafny

This project models the core of a performance-aware-programming workspace
written in Rust, in four parts:

- **sim8086, the 8086 decoder and disassembler.** `Inst::from_encoding` classifies the first byte of
  an instruction by a first-match chain of bit patterns. It decodes
  MOV, ADD, SUB and CMP in their several forms, the sixteen Jcc jumps, the four
  loop instructions and HLT. Helpers split the mod/reg/rm byte, decode
  effective addresses (including the mod=00, r/m=110 direct address) and
  read little-endian data and displacements. The `Display` impls print NASM
  text, `disassemble` adds the header, and `InstStream` walks a binary.
- **sim8086, the executor.** A 16-byte register file in which AL/AH overlay AX,
  a 64 KiB memory, a flags word (PF bit 2, ZF bit 6, SF bit 7), an
  instruction pointer and a `u32` cycle estimate. `exec` fetches, advances,
  estimates cycles (EA table, transfer penalty on odd addresses) and
  executes until HLT.
- **haversine, the JSON reader.** A tokenizer that skips whitespace and commas, a
  recursive-descent parser into `JsonValue`, and the accessors (`Index`,
  `elements`, `items`, the `From` conversions).
- **Measurement.** The profiler's 16-slot timer table with find-or-insert by
  name, and the repetition tester's trial state machine with min/max/total
  folding.

## Modelling choices

- A Rust `panic!`, `expect`, `todo!`, `assert!`, out-of-bounds index or
  debug-build integer overflow is the `Panic(msg)` case of `Results.Result`;
  the run stops there. A `None` the source returns is `Option.None`.
- Bytes are `bv8` and 16-bit words `bv16`. Signed displacements and relative
  offsets are the integer subset types `I16` and `I8`. Widths, wrap-around and
  overflow are written out where the source has them: SUB and CMP wrap, and
  `i16` sums in `calc_addr` panic on overflow. ADD in `exec` is an unchecked
  `u16` sum that panics on a carry out; `ExecuteAsWritten` keeps that panic,
  while `Execute`, which the rest of the model runs, wraps as the 8086 does.
- The decoder, the text rendering and the executor's semantics are pure
  functions. The code that changes things in place is imperative Dafny, and
  each such method is proved to follow the function it mirrors:
  - `GeneralRegisters` and `State` are classes over `array<bv8>`.
  - `disassemble` appends in a loop.
  - `InstStream.Next` advances a field.
  - `parse_token` and the object and array loops of `parse_rec` are methods.
  - The profiler and the repetition tester are classes.
- Every decoded instruction is checked against an independent reference:
  - a table of the first-byte patterns in the order they are tried;
  - a reference assembler `Encode`, with decode(encode(i) ++ rest) proved for every well-formed instruction;
  - a reader for the printed text, with the round trip proved for every decoded instruction and for whole listings.
- The JSON parser is checked against a serializer. A layout gives the
  blanks after the opening bracket, between siblings (with the comma),
  before the closing bracket and on either side of each colon, and may give
  a different layout for the next depth down. Any valid value printed with
  any such layout parses back to itself. The texts of the unit tests are
  such layouts; siblings at one depth share their spacing.
- The clock and the page-fault counter are parameters of the operations that
  read them.
- JNE and LOOP programs need not terminate, so `Exec` takes a `fuel` bound;
  its result says whether HLT was reached within it.
- The register file is 16 bytes: two for each of the eight wide registers,
  with AL to BH the low and high bytes of AX to BX.
- `calc_addr` adds base, index and displacement in `i16`. A sum that leaves
  `i16` panics, nothing wraps modulo 65536, and a negative address is out of
  bounds for memory.
- A byte immediate is read zero-extended, also under the s bit of `100000sw`.
- Six places where the code as written misbehaves are listed under
  "## Findings". Each has an as-written member. The decoder, printer and
  executor that the stream, the listing and `Exec` are built on are the
  corrected ones. Whole-pipeline members pair them up: `FromEncodingAsWritten`
  with `AsWrittenAgrees`, `InstTextAsWritten` with `InstTextAgrees`,
  `ExecuteAsWritten` with `ExecuteAgrees`, and `StepAsWritten` with
  `StepAgrees` and `RunAgrees`. Each pair states exactly the inputs on which
  the two differ.

## Model

| member | source | states |
|---|---|---|
| Sim8086Parse.GetBits | sim8086/src/parse.rs:193-195 | the field is below 2^len |
| Sim8086Parse.FieldsAsMasks | sim8086/src/parse.rs:189-195 | get_bit/get_bits at the offsets the decoder uses are the d, w, mod, reg and r/m masks of the byte |
| Sim8086Parse.At | sim8086/src/parse.rs:333-394 | indexing the byte slice panics exactly when the index is out of range |
| Sim8086Parse.LeWord | sim8086/src/parse.rs:199 | the low byte of the word is the first byte and the high byte the second |
| Sim8086Parse.SignedByte | sim8086/src/parse.rs:210 | the byte read as two's-complement i8 |
| Sim8086Parse.SignedWord | sim8086/src/parse.rs:208 | the word read as two's-complement i16 |
| Sim8086Parse.GetData | sim8086/src/parse.rs:197-203 | consumes 2 bytes only when !s && w, else 1; the low byte is the first data byte, a one-byte datum is zero-extended; panics on a short slice |
| Sim8086Parse.GetDisp | sim8086/src/parse.rs:205-211 | consumes 2 bytes when wide else 1; a one-byte displacement is in -128..127; panics on a short slice |
| Sim8086Parse.RegisterFromEncoding | sim8086/src/parse.rs:27-38 | the register has the requested width and the 3-bit code it was decoded from |
| Sim8086Parse.EaTableEntry | sim8086/src/parse.rs:80-121 | the eight r/m entries all have a base, an index exactly for r/m < 4, and no displacement |
| Sim8086Parse.RawEffAddr | sim8086/src/parse.rs:123-151 | mod 3 panics; mod 0 with r/m 6 is a direct 16-bit address; mod 1 and 2 read 1 or 2 displacement bytes; the consumed length is the displacement length |
| Sim8086Parse.NormaliseAsWritten | sim8086/src/parse.rs:153-155 | a zero displacement is dropped, whatever the components |
| Sim8086Parse.Normalise | sim8086/src/parse.rs:153-155 | as written, except a direct address keeps its displacement, so no decoded address is empty |
| Sim8086Parse.EffAddrFromEncodingAsWritten | sim8086/src/parse.rs:77-158 | length and panics of the source's decoder, with the as-written normalisation |
| Sim8086Parse.EffAddrFromEncoding | sim8086/src/parse.rs:77-158 | panics iff mod 3 or too few bytes; consumes the displacement length; the address is direct iff mod 0 and r/m 6, and always has a component |
| Sim8086Parse.ArithFromOpcode | sim8086/src/parse.rs:221-228 | defined exactly for sub-opcodes 000, 101 and 111 |
| Sim8086Parse.ExpectArith | sim8086/src/parse.rs:365-366 | panics exactly on the other five sub-opcodes |
| Sim8086Parse.NewArithmetic | sim8086/src/parse.rs:396-402 | builds ADD, SUB or CMP with the operands in the given order |
| Sim8086Parse.OperandFromReg | sim8086/src/parse.rs:242-244 | a register of the given width and code |
| Sim8086Parse.OperandFromRm | sim8086/src/parse.rs:246-267 | a register iff mod 3; otherwise MemWord iff s or w, MemByte iff neither; length is the displacement length; panics on too few bytes |
| Sim8086Parse.OperandFromData | sim8086/src/parse.rs:269-279 | ImmWord iff !s && w, else a zero-extended ImmByte of the first byte; consumes 2 or 1 bytes |
| Sim8086Parse.ModRegRm | sim8086/src/parse.rs:477-498 | consumes 2 + displacement bytes; panics exactly on a short slice |
| Sim8086Parse.ImmToRm | sim8086/src/parse.rs:500-516 | consumes 2 + displacement + data bytes; panics exactly on a short slice |
| Sim8086Parse.ConstWithAccAsWritten | sim8086/src/parse.rs:518-550 | the consumed length follows w even for a memory address |
| Sim8086Parse.ConstWithAcc | sim8086/src/parse.rs:518-550 | the accumulator is AX or AL by w and sits on the side the direction selects; a memory address is always two bytes, an immediate follows w |
| Sim8086Parse.NewJmp | sim8086/src/parse.rs:404-428 | a Jcc of length 2 whose target is the signed second byte; panics on a one-byte slice |
| Sim8086Parse.NewLoop | sim8086/src/parse.rs:430-442 | a loop of length 2 whose target is the signed second byte |
| Sim8086Parse.DirectZeroAsWritten | sim8086/src/parse.rs:153-155 | the direct address [0] decodes to an address with no base, index or displacement |
| Sim8086Parse.DirectZeroIntended | sim8086/src/parse.rs:125-155 | the corrected decoder keeps [0] as a direct address with displacement 0 |
| Sim8086Parse.ByteAccAddressAsWritten | sim8086/src/parse.rs:518-550 | A0 10 00 is taken as a 2-byte instruction, leaving the address's high byte as the next opcode |
| Sim8086Parse.ByteAccAddressIntended | sim8086/src/parse.rs:518-550 | the corrected decoder consumes all 3 bytes of A0 10 00 |
| Sim8086Parse.FromEncoding | sim8086/src/parse.rs:333-394 | the first-match chain with the corrected address helpers: an empty slice panics, and a decoded length is between 1 and the slice length |
| Sim8086Parse.EffAddrAsWrittenRenormalises | sim8086/src/parse.rs:77-158 | the address decoding as written is the corrected one followed by the as-written normalisation |
| Sim8086Parse.InstAsWrittenKeeps | sim8086/src/parse.rs:153-155 | renormalising as written changes an instruction exactly when one of its addresses has the displacement 0 |
| Sim8086Parse.FromEncodingAsWritten | sim8086/src/parse.rs:333-394 | the first-match chain exactly as written (A0/A2 address read with the data width, every zero displacement dropped); no contract of its own: AsWrittenAgrees and EncodeDecodeAsWritten state what it returns |
| Sim8086Encoding.PatternsDisjoint | sim8086/src/parse.rs:333-393 | no first byte matches two of the eleven first-byte patterns, so the order of the chain never decides |
| Sim8086Encoding.FormOfMatches | sim8086/src/parse.rs:333-393 | a byte matching a form's mask is classified as that form |
| Sim8086Encoding.FormFacts | sim8086/src/parse.rs:335-393 | each form is selected exactly by its bit pattern (F4, 100010xx, 1011wrrr, 1100011w, 1010000w, 1010001w, 00xxx0xx, 100000sw, 00xxx10w, 0111cccc, 111000cc) |
| Sim8086Encoding.FormIs | sim8086/src/parse.rs:333-393 | a byte has a pattern's form exactly when it matches that pattern |
| Sim8086Encoding.MovPatternBits | sim8086/src/parse.rs:335-360 | each HLT and MOV pattern of the manual is the decoder's own get_bits test |
| Sim8086Encoding.ArithPatternBits | sim8086/src/parse.rs:362-391 | each arithmetic, jump and loop pattern of the manual is the decoder's own get_bits/get_bit test |
| Sim8086Encoding.Dispatch | sim8086/src/parse.rs:333-394 | from_encoding decodes by the form of its first byte |
| Sim8086Encoding.DecodeMatchesTable | sim8086/src/parse.rs:333-394 | empty input panics; otherwise every form yields its instruction kind and its exact length (1, 2 + disp, 1 + 1 or 2, 2 + disp + data, 2) or panics on a short slice, and an unknown first byte yields None |
| Sim8086Encoding.DispRoundTrip | sim8086/src/parse.rs:205-211 | any i16 displacement split into bytes reads back as itself |
| Sim8086Encoding.EaRoundTrip | sim8086/src/parse.rs:77-158 | every address the decoder can produce, encoded as mod, r/m and displacement, decodes back to itself, whatever bytes follow |
| Sim8086Encoding.RmRoundTrip | sim8086/src/parse.rs:246-267 | every r/m operand encodes and decodes back to itself |
| Sim8086Encoding.ModRegRmRoundTrip | sim8086/src/parse.rs:477-498 | the reg and r/m operands come back in the order the direction bit gives |
| Sim8086Encoding.ImmToRmRoundTrip | sim8086/src/parse.rs:500-516 | the destination and the immediate come back with the length 2 + displacement + data |
| Sim8086Encoding.DataRoundTrip | sim8086/src/parse.rs:269-279 | every immediate encodes and decodes back to itself |
| Sim8086Encoding.EncodeDecode | sim8086/src/parse.rs:333-550 | for every well-formed instruction, decoding its encoding followed by any bytes returns the instruction and the encoding's length |
| Sim8086Encoding.DecodeWellFormed | sim8086/src/parse.rs:333-550 | every decoded instruction is well formed (register widths agree, addresses have a component) |
| Sim8086Encoding.AsWrittenAgrees | sim8086/src/parse.rs:333-550 | the decoder as written and the corrected one agree on A1 and A3; on A0 and A2 they need and consume 2 and 3 bytes; on every other first byte they agree exactly when the decoded instruction has no zero displacement |
| Sim8086Encoding.EncodeDecodeAsWritten | sim8086/src/parse.rs:333-550 | decoding a well-formed instruction's encoding as written returns it with its addresses renormalised, so unchanged exactly when it has no zero displacement |
| Sim8086Encoding.DirectZeroDecoded | sim8086/src/parse.rs:153-155 | 8B 06 00 00 decodes as written to `mov ax` from an address with no component, and as intended to the direct address [0] |
| Sim8086Encoding.DirectZeroPrefix | sim8086/src/parse.rs:153-155 | 8B 06 00 00 at the head of any slice: 4 bytes of `mov ax` from [0] as intended, from an address with no component as written |
| Sim8086Encoding.ByteAccDecoded | sim8086/src/parse.rs:518-550 | A0 10 00 decodes to `mov al, [16]`: 2 bytes long as written, 3 as intended |
| Sim8086Text.NatTextRoundTrip | sim8086/src/parse.rs:172-182 | a printed decimal numeral reads back as its value |
| Sim8086Text.RegisterName | sim8086/src/parse.rs:40-60 | every name is two lower-case letters; RegisterNameRoundTrip shows the sixteen names are distinct and read back |
| Sim8086Text.EffAddrText | sim8086/src/parse.rs:161-187 | `[base + index + d]`, `- |d|` for a negative d, `[d]` with no base; no contract of its own: EffAddrTextRoundTrip shows the text reads back as the address |
| Sim8086Text.EffAddrTextAsWritten | sim8086/src/parse.rs:161-187 | the address text with the i16 `abs()`; no contract of its own: AbsOverflowAsWritten and OperandTextAgrees state it panics exactly on -32768 after a base and is EffAddrText otherwise |
| Sim8086Text.RelTextAsWritten | sim8086/src/parse.rs:290-299 | the `$+{x+2}+0` text with `x + 2` in i8; no contract of its own: RelOverflowAsWritten and OperandTextAgrees state it panics exactly for 126 and 127 |
| Sim8086Text.OperandText | sim8086/src/parse.rs:282-302 | register names bare, immediates and memory operands sized, offsets self-relative; no contract of its own: OperandTextRoundTrip shows every printable operand reads back |
| Sim8086Text.OperandTextAsWritten | sim8086/src/parse.rs:282-302 | the operand text as written; no contract of its own: OperandTextAgrees states where it panics and that it is OperandText otherwise |
| Sim8086Text.InstText | sim8086/src/parse.rs:445-475 | `mnemonic dst, src`, `mnemonic target` or `hlt`; no contract of its own: InstTextRoundTrip shows every printable instruction's text reads back as it |
| Sim8086Text.InstTextAsWritten | sim8086/src/parse.rs:445-475 | the instruction text as written; no contract of its own: InstTextAgrees states it panics iff an operand text does and is InstText otherwise |
| Sim8086Text.ListingText | sim8086/src/parse.rs:552-567 | the header, a blank line and one line per instruction; no contract of its own: Disassemble builds it in a loop and ListingRoundTrip reads it back |
| Sim8086Text.IntTextRoundTrip | sim8086/src/parse.rs:290-299 | a printed signed numeral reads back as its value |
| Sim8086Text.RegisterNameRoundTrip | sim8086/src/parse.rs:40-60 | each register's name is distinct and reads back as the register |
| Sim8086Text.EffAddrTextRoundTrip | sim8086/src/parse.rs:161-187 | the `[base + index + d]`, `- |d|` and `[d]` text of every printable address reads back as the address |
| Sim8086Text.RelShapeRoundTrip | sim8086/src/parse.rs:290-299 | the `$+n+0`, `$+0` and `$-n+0` text reads back as the offset |
| Sim8086Text.OperandTextRoundTrip | sim8086/src/parse.rs:282-302 | every printable operand (register, `word`/`byte` memory, immediate, relative offset) reads back as itself |
| Sim8086Text.CondNameRoundTrip | sim8086/src/parse.rs:445-475 | each Jcc mnemonic reads back as its condition and is no loop mnemonic |
| Sim8086Text.LoopNameRoundTrip | sim8086/src/parse.rs:445-475 | each loop mnemonic reads back as its kind and is no Jcc mnemonic |
| Sim8086Text.InstTextRoundTrip | sim8086/src/parse.rs:445-475 | every printable instruction's text reads back as the instruction |
| Sim8086Text.DecodedTextRoundTrip | sim8086/src/parse.rs:333-475 | the text of every decoded instruction reads back as that instruction |
| Sim8086Text.Disassemble | sim8086/src/parse.rs:552-567 | the appending loop yields the header lines, a blank line and one line per instruction |
| Sim8086Text.ListingRoundTrip | sim8086/src/parse.rs:552-567 | the listing reads back as the instruction sequence it was made from |
| Sim8086Text.RelOverflowAsWritten | sim8086/src/parse.rs:290-299 | `jne` with offset 126 decodes, and printing it overflows the i8 `x + 2` |
| Sim8086Text.RelOverflowIntended | sim8086/src/parse.rs:290-299 | the corrected printer gives `jne $+128+0` |
| Sim8086Text.AbsOverflowAsWritten | sim8086/src/parse.rs:172-182 | `mov ax, [bx - 32768]` decodes, and printing it overflows `abs()` |
| Sim8086Text.AbsOverflowIntended | sim8086/src/parse.rs:172-182 | the corrected printer's text reads back as that address |
| Sim8086Text.DirectZeroText | sim8086/src/parse.rs:161-187 | the empty address prints as `[]`, which names no address |
| Sim8086Text.OperandTextAgrees | sim8086/src/parse.rs:282-302 | an operand's text as written panics exactly on a relative offset of 126 or 127 or a displacement of -32768 after a base, and otherwise is the intended text |
| Sim8086Text.InstTextAgrees | sim8086/src/parse.rs:445-475 | an instruction's text as written panics exactly when one of its operands' does, and otherwise is the intended text |
| Sim8086Stream.InstStream.FromBinary | sim8086/src/parse.rs:576-578 | the stream starts at offset 0 |
| Sim8086Stream.InstStream.Next | sim8086/src/parse.rs:584-595 | returns the instruction at the offset and advances by its length; at the end, or on an unknown byte, returns None and stays |
| Sim8086Stream.StepBy | sim8086/src/parse.rs:584-595 | the body of `next` for any decoder: yields and advances as Step says |
| Sim8086Stream.Step | sim8086/src/parse.rs:584-595 | an instruction is yielded only from inside the binary; otherwise the offset is unchanged |
| Sim8086Stream.StepAdvances | sim8086/src/parse.rs:584-595 | with a decoder that consumes at least one byte and never more than it has, a yielded instruction moves the offset forward and not past the end |
| Sim8086Stream.DisassembleBinary | sim8086/src/parse.rs:552-595 | the listing of exactly the instructions the stream yields |
| Sim8086Stream.DecodedWellFormed | sim8086/src/parse.rs:584-595 | every instruction the stream yields is well formed |
| Sim8086Stream.ListingReadsBack | sim8086/src/parse.rs:552-595 | the disassembly of any binary reads back as the instructions decoded from it |
| Sim8086Stream.EncodedProgramDecodes | sim8086/src/parse.rs:584-595 | the stream over the concatenated encodings of well-formed instructions yields exactly those instructions |
| Sim8086Machine.RegPos | sim8086/src/exec.rs:22-44 | the byte position and width of each register lie within the 16-byte file |
| Sim8086Machine.SetReg | sim8086/src/exec.rs:56-70 | only the bytes of the written register change |
| Sim8086Machine.SetGetSame | sim8086/src/exec.rs:46-70 | reading a register after writing v gives v, or v mod 256 for a half register |
| Sim8086Machine.GetReg | sim8086/src/exec.rs:46-54 | a wide register little-endian, a half register zero-extended; no contract of its own: SetGetSame, SetGetOther and HalfOverlaysWide state what it reads after a write |
| Sim8086Machine.SetGetOther | sim8086/src/exec.rs:46-70 | writing a register leaves every register that shares no byte with it unchanged |
| Sim8086Machine.HalfOverlaysWide | sim8086/src/exec.rs:22-70 | writing AL replaces the low byte of AX and keeps AH |
| Sim8086Machine.Initial | sim8086/src/exec.rs:101-113 | memory holds the program, then F4, then zeros; registers, flags, iptr and cycles are 0 |
| Sim8086Machine.CalcAddr | sim8086/src/exec.rs:116-120 | base + index + displacement in i16; panics iff either partial sum leaves i16; no wrap |
| Sim8086Machine.Load | sim8086/src/exec.rs:127-131 | reading memory panics exactly outside 0..65535 |
| Sim8086Machine.GetValue | sim8086/src/exec.rs:122-134 | registers and immediates read directly (a byte immediate zero-extended); a relative offset panics |
| Sim8086Machine.SetValue | sim8086/src/exec.rs:136-150 | a register write is SetReg; an immediate or relative offset panics; iptr, flags and cycles are kept |
| Sim8086Machine.SetMemoryFrame | sim8086/src/exec.rs:136-150 | MemWord writes bytes addr and addr+1 little-endian, MemByte one byte, and no other byte changes |
| Sim8086Machine.SetThenGet | sim8086/src/exec.rs:122-150 | reading an operand after writing v gives v, or its low byte for a byte operand |
| Sim8086Machine.UpdateFlagsZero | sim8086/src/exec.rs:182-204 | ZF is set iff the value is 0 |
| Sim8086Machine.UpdateFlagsSigned | sim8086/src/exec.rs:182-204 | SF is set iff the value exceeds 0x7FFF |
| Sim8086Machine.UpdateFlagsParity | sim8086/src/exec.rs:182-204 | PF is set iff the low byte has an even number of ones |
| Sim8086Machine.UpdateFlagsKeeps | sim8086/src/exec.rs:152-204 | every other flag bit is kept |
| Sim8086Machine.FlagsText | sim8086/src/exec.rs:164-180 | the text names P, Z and S exactly when those flags are set |
| Sim8086Machine.UpdateFlags | sim8086/src/exec.rs:182-204 | Zero, Signed and Parity from the value; no contract of its own: UpdateFlagsZero, UpdateFlagsSigned, UpdateFlagsParity and UpdateFlagsKeeps state each bit |
| Sim8086Machine.ZeroResultFlags | sim8086/src/exec.rs:458 | after a zero result the flags print as "PZ" |
| Sim8086Machine.JumpTo | sim8086/src/exec.rs:206-221 | an untaken jump leaves the state; a taken jump changes only iptr: a relative offset adds to it and panics below 0, a byte or word immediate sets it outright, and a register or memory operand panics |
| Sim8086Machine.Dec | sim8086/src/exec.rs:232-236 | the machine stays valid; the wrapping decrement itself is stated by LoopIsDecThenJump and LoopCounts |
| Sim8086Machine.LoopIsDecThenJump | sim8086/src/exec.rs:391-394 | LOOP is a decrement of CX followed by a jump taken iff CX is then nonzero |
| Sim8086Machine.NextInstr | sim8086/src/exec.rs:223-230 | a fetched instruction advances iptr before it executes and changes nothing else |
| Sim8086Machine.EaCycles | sim8086/src/exec.rs:238-261 | 6 for a direct address, between 5 and 12 otherwise; panics for an address with no component |
| Sim8086Machine.DecodedEaCosted | sim8086/src/exec.rs:238-261 | every address the corrected decoder produces has a cost |
| Sim8086Machine.TransferPenalty | sim8086/src/exec.rs:263-269 | 4 per transfer when the address is odd, else 0 |
| Sim8086Machine.CycleCost | sim8086/src/exec.rs:271-323 | HLT 2 and every non-MOV/ADD 0; reg,imm 4; reg,reg 2 for MOV and 3 for ADD; MOV reg,mem 8 and mem,reg 9 and ADD reg,mem 9 with one transfer, ADD mem,reg 16 and mem,imm 17 with two: each panics iff the address has no cost or cannot be computed, otherwise base + EaCycles + TransferPenalty; every other MOV/ADD shape 0 |
| Sim8086Machine.EstimateCycles | sim8086/src/exec.rs:325-326 | adds the cost to the estimate; panics if the u32 estimate would overflow |
| Sim8086Machine.AddAsWritten | sim8086/src/exec.rs:360 | the unchecked u16 `+` panics exactly on a carry out |
| Sim8086Machine.AddOverflowExhibit | sim8086/src/exec.rs:360 | 0xFFFF + 1 panics as written and wraps to 0 as intended |
| Sim8086Machine.AddAgreesWithoutCarry | sim8086/src/exec.rs:360 | without a carry the two agree |
| Sim8086Machine.Execute | sim8086/src/exec.rs:357-400 | HLT changes nothing; Jcc other than JNE and loops other than LOOP panic; cycles are kept; ADD wraps (see ExecuteAgrees) |
| Sim8086Machine.ExecuteAsWritten | sim8086/src/exec.rs:357-400 | the match as written, with the unchecked ADD: a result is a valid machine with the cycles kept |
| Sim8086Machine.ExecuteAgrees | sim8086/src/exec.rs:359-363 | as written a carrying ADD panics; every other instruction does exactly what Execute does |
| Sim8086Machine.MovCopies | sim8086/src/exec.rs:358 | after MOV the destination reads as the source (its low byte for a byte destination) |
| Sim8086Machine.CmpOnlyFlags | sim8086/src/exec.rs:369-372 | CMP changes only the flags, from the wrapping difference |
| Sim8086Machine.SubStores | sim8086/src/exec.rs:364-368 | SUB stores the wrapping difference and sets the flags from it |
| Sim8086Machine.AddStores | sim8086/src/exec.rs:359-363 | ADD stores the sum and sets the flags from it |
| Sim8086Machine.Arith | sim8086/src/exec.rs:359-372 | ADD/SUB/CMP read both operands, store unless CMP and set the flags; a result keeps iptr and the cycles; AddStores, SubStores and CmpOnlyFlags state the new registers, memory and flags |
| Sim8086Machine.JneJumps | sim8086/src/exec.rs:378 | JNE moves iptr by the offset iff ZF is clear |
| Sim8086Machine.LoopCounts | sim8086/src/exec.rs:391-394 | LOOP leaves CX one less (wrapping) and jumps iff it is nonzero |
| Sim8086Machine.Step | sim8086/src/exec.rs:349-403 | one fetch/estimate/execute turn never lowers the estimate, and a turn that ends the loop (HLT or nothing decoded) changes neither memory nor registers |
| Sim8086Machine.NextInstrAsWritten | sim8086/src/exec.rs:223-230 | a fetch with the decoder as written changes only iptr |
| Sim8086Machine.StepAgrees | sim8086/src/exec.rs:349-403 | a turn as written (decoder as written, printing the instruction, unchecked ADD) equals Step whenever both decoders fetch alike, the text does not overflow and the ADD does not carry |
| Sim8086Machine.RunAgrees | sim8086/src/exec.rs:345-406 | the loop as written runs exactly as the corrected one for as long as every turn of the corrected run satisfies those conditions |
| Sim8086Machine.RelOverflowFetch | sim8086/src/exec.rs:223-230 | both decoders fetch `jne` with offset 126 from 75 7E and advance iptr by 2 |
| Sim8086Machine.StepAsWritten | sim8086/src/exec.rs:349-403 | one turn as written: as-written fetch, `print!("{inst}")`, cycle count, unchecked ADD; no contract of its own: StepAgrees, RelOverflowTurn and DirectZeroTurn state where it equals Step and where it panics |
| Sim8086Machine.RelOverflowTurn | sim8086/src/exec.rs:349-350 | on 75 7E the corrected turn succeeds and the turn as written panics printing the instruction |
| Sim8086Machine.DirectZeroFetch | sim8086/src/exec.rs:223-230 | from 8B 06 00 00 the corrected fetch yields `mov ax, [0]` and the fetch as written the same MOV with an empty address, both advancing iptr by 4 |
| Sim8086Machine.DirectZeroTurn | sim8086/src/exec.rs:238-261 | on 8B 06 00 00 the turn as written panics, since `ea_cycles` has no cost for an address with no component |
| Sim8086Machine.RunStable | sim8086/src/exec.rs:349-403 | once halted, more fuel changes nothing |
| Sim8086Machine.RunAdvances | sim8086/src/exec.rs:349-403 | a run is one turn followed by the run of the rest |
| Sim8086Machine.Run | sim8086/src/exec.rs:349-403 | the `while let` loop for at most `fuel` turns; no contract of its own: RunStable, RunAdvances and RunAgrees state how it ends, goes on and matches the loop as written |
| Sim8086Exec.GeneralRegisters.constructor | sim8086/src/exec.rs:16-20 | sixteen zero bytes |
| Sim8086Exec.GeneralRegisters.Get | sim8086/src/exec.rs:46-54 | reads the register as GetReg does |
| Sim8086Exec.GeneralRegisters.Set | sim8086/src/exec.rs:56-70 | the array afterwards is SetReg of the array before |
| Sim8086Exec.State.New | sim8086/src/exec.rs:101-113 | the fresh state is Initial of the program |
| Sim8086Exec.State.GetValue | sim8086/src/exec.rs:122-134 | agrees with GetValue on the state's snapshot |
| Sim8086Exec.State.SetValue | sim8086/src/exec.rs:136-150 | the state afterwards is SetValue of the state before, or the method panics as it does |
| Sim8086Exec.State.SetFlag | sim8086/src/exec.rs:152-154 | the flag's bit is set and nothing else in the state changes |
| Sim8086Exec.State.UnsetFlag | sim8086/src/exec.rs:156-158 | the flag's bit is cleared and nothing else in the state changes |
| Sim8086Exec.State.IsSet | sim8086/src/exec.rs:160-162 | whether the flag's bit is set in the flags word; no contract of its own: UpdateFlagsZero, UpdateFlagsSigned and UpdateFlagsParity state when each bit is set |
| Sim8086Exec.State.Arith | sim8086/src/exec.rs:359-372 | the ADD/SUB/CMP arms in place: the state afterwards is Arith of the state before, or the method panics as it does |
| Sim8086Exec.State.UpdateFlagsFromValue | sim8086/src/exec.rs:182-204 | only the flags change, to UpdateFlags |
| Sim8086Exec.State.Jump | sim8086/src/exec.rs:206-221 | follows JumpTo |
| Sim8086Exec.State.NextInstr | sim8086/src/exec.rs:223-230 | follows NextInstr |
| Sim8086Exec.State.Dec | sim8086/src/exec.rs:232-236 | follows Dec |
| Sim8086Exec.State.EstimateCycles | sim8086/src/exec.rs:271-342 | follows EstimateCycles |
| Sim8086Exec.State.Execute | sim8086/src/exec.rs:357-400 | follows Execute |
| Sim8086Exec.State.Step | sim8086/src/exec.rs:349-403 | follows Step |
| Sim8086Exec.State.Turn | sim8086/src/exec.rs:349-403 | one turn of the loop as the first of `left + 1`: a panic or a stop is how Run ends, otherwise Run goes on from the new state with `left` turns |
| Sim8086Exec.Exec | sim8086/src/exec.rs:345-406 | panics for a program of 65536 bytes or more; otherwise its final state and halt flag are Run of Step from Initial with the given fuel |
| JsonParse.CountWhile | haversine/src/parse.rs:30-36 | the longest prefix of bytes satisfying the test |
| JsonParse.Lex | haversine/src/parse.rs:29-97 | a token consumes at least one byte and never more than the input holds |
| JsonParse.LexConsumes | haversine/src/parse.rs:29-97 | a token read is valid and its text, after the skipped whitespace and commas, is exactly what is consumed; an input of only whitespace and commas panics |
| JsonParse.TokenAt | haversine/src/parse.rs:37-94 | a token read is valid and its non-empty text is the front of the input; an empty input panics |
| JsonParse.LexString | haversine/src/parse.rs:45-49 | the bytes up to the next quote, consuming len + 2; panics exactly when no closing quote follows |
| JsonParse.LexNumber | haversine/src/parse.rs:51-70 | the lexeme `-?digits(.digits)?` that is consumed |
| JsonParse.Keyword | haversine/src/parse.rs:72-95 | `true`, `false` and `null` are read byte for byte and consume 4, 5 and 4 bytes; KeywordReads shows each spelling is read back |
| JsonParse.ParseToken | haversine/src/parse.rs:29-97 | the loop advancing `ptr` over skipped bytes returns Lex |
| JsonParse.LexAfterSkips | haversine/src/parse.rs:30-36 | after any run of skipped bytes, the token is the one read after them, its end moved on by their number |
| JsonParse.LexSkips | haversine/src/parse.rs:30-36 | a leading whitespace or comma byte is skipped and counted |
| JsonParse.LexRender | haversine/src/parse.rs:37-94 | the text of every valid token, followed by anything, lexes back to that token and its length |
| JsonParse.ParseValue | haversine/src/parse.rs:106-162 | what is left is a strict suffix of the input |
| JsonParse.ParseMembers | haversine/src/parse.rs:111-135 | the pairs so far are kept as a prefix and the rest is a strict suffix |
| JsonParse.ParseElements | haversine/src/parse.rs:137-152 | the elements so far are kept as a prefix and the rest is a strict suffix |
| JsonParse.ParseMember | haversine/src/parse.rs:123-131 | after a key: a colon, then a value; the pair has the key and the rest is a strict suffix |
| JsonParse.Parse | haversine/src/parse.rs:102-104 | the first value, trailing bytes ignored; no contract of its own: ParseRoundTrip shows every printed value parses back to itself |
| JsonParse.ParseRoundTrip | haversine/src/parse.rs:102-162 | any valid value, printed with any per-depth layout and followed by bytes that start no value, parses back to the value |
| JsonParse.MemberSkipsAll | haversine/src/parse.rs:30-36 | blanks before a member's key do not change how the member parses |
| JsonParse.ValueRoundTrip | haversine/src/parse.rs:106-162 | parse_rec returns the value and exactly the bytes after it |
| JsonParse.ValueSkipsAll | haversine/src/parse.rs:30-36 | leading whitespace and commas do not change the parse |
| JsonParse.ParseRec | haversine/src/parse.rs:106-162 | returns ParseValue |
| JsonParse.ParseObject | haversine/src/parse.rs:111-135 | the pair-pushing loop returns ParseMembers |
| JsonParse.ParsePair | haversine/src/parse.rs:123-131 | returns ParseMember |
| JsonParse.ParseArray | haversine/src/parse.rs:137-152 | the element-pushing loop returns ParseElements |
| JsonAccess.IndexAt | haversine/src/util.rs:12-22 | succeeds iff the value is an array and the index is in range, and returns one of its elements |
| JsonAccess.FindKey | haversine/src/util.rs:24-38 | the first pair with the key |
| JsonAccess.IndexKey | haversine/src/util.rs:24-38 | succeeds iff the value is an object with the key, and returns a value paired with it |
| JsonAccess.Elements | haversine/src/util.rs:41-47 | succeeds iff the value is an array, returning its elements |
| JsonAccess.Items | haversine/src/util.rs:49-55 | succeeds iff the value is an object, returning its pairs |
| JsonAccess.AsNumber | haversine/src/util.rs:58-66 | succeeds iff the value is a number, returning its lexeme |
| JsonAccess.AsStr | haversine/src/util.rs:68-76 | succeeds iff the value is a string, returning it |
| JsonAccess.AsBool | haversine/src/util.rs:78-86 | succeeds iff the value is a boolean, returning it |
| JsonAccess.IndexThroughElements | haversine/src/util.rs:12-47 | indexing is `elements()[i]` |
| JsonAccess.FindKeyAppend | haversine/src/util.rs:24-38 | appending pairs does not change a key already found |
| JsonAccess.ShadowedKey | haversine/src/util.rs:24-38 | of two pairs with the same key, the earlier wins |
| JsonAccess.IndexParsedArray | haversine/src/util.rs:12-22 | indexing a parsed array gives the i-th element written, or panics past the end |
| JsonAccess.IndexParsedObject | haversine/src/util.rs:24-38 | looking up a key in a parsed object gives the same answer as in the object written |
| JsonExamples.ParseNull | haversine/src/parse.rs:170-173 | "null" parses to Null |
| JsonExamples.ParseTrue | haversine/src/parse.rs:175-180 | "true" parses to true |
| JsonExamples.ParseFalse | haversine/src/parse.rs:175-180 | "false" parses to false |
| JsonExamples.ParseHello | haversine/src/parse.rs:182-185 | a quoted string parses to its contents |
| JsonExamples.ParseDecimal | haversine/src/parse.rs:187-193 | "12345.12345" parses to that number |
| JsonExamples.ParseMinusPi | haversine/src/parse.rs:187-193 | "-3.1415" parses to that number |
| JsonExamples.ParseArrayExample | haversine/src/parse.rs:195-199 | the test's text `[null, true, 1.2, "hello"]` parses to its four elements in order |
| JsonExamples.ArrayText | haversine/src/parse.rs:195-199 | that text is the array printed on one line with ", " between elements |
| JsonExamples.ParseObjectExample | haversine/src/parse.rs:201-218 | the test's literal object text, newlines and indentation included, parses to its four pairs in source order |
| JsonExamples.ObjectText | haversine/src/parse.rs:201-218 | that text is the object printed one member per line, indented by twelve spaces |
| JsonExamples.ParseNestedExample | haversine/src/parse.rs:220-252 | the test's literal nested text, trailing spaces included, parses to the object holding the array of two one-member objects |
| JsonExamples.NestedText | haversine/src/parse.rs:220-252 | that text is the value printed with one layout per depth |
| Profiler.NewTimer | profiler/src/lib.rs:22-27 | a timer with the name and sum 0 |
| Profiler.Timer.Start | profiler/src/lib.rs:29-31 | subtracts the u64 reading cast to i64 from the sum; no contract of its own: StartThenStop states what a start/stop pair adds |
| Profiler.Timer.Stop | profiler/src/lib.rs:33-35 | adds the reading cast to i64 to the sum; no contract of its own: StartThenStop and TotalOfStartStop state the pair |
| Profiler.Lookup | profiler/src/lib.rs:70-76 | the first slot with the name, or None iff no slot has it |
| Profiler.StartSpec | profiler/src/lib.rs:78-89 | start as a function of the table; no contract of its own: StartFindsOrInserts and StartKeepsWellFormed state reuse, insertion, the panic when full and the invariant |
| Profiler.StopSpec | profiler/src/lib.rs:91-93 | stop as a function of the table; no contract of its own: StopChangesOne and StopKeepsWellFormed state the panic, the one changed timer and the invariant |
| Profiler.StartKeepsWellFormed | profiler/src/lib.rs:78-89 | start keeps slots 0..timers occupied with distinct names and the rest empty |
| Profiler.StopKeepsWellFormed | profiler/src/lib.rs:91-93 | stop keeps that invariant |
| Profiler.StartFindsOrInserts | profiler/src/lib.rs:78-89 | start reuses a named timer or fills slot `timers`; it panics iff the name is new and all 16 slots are taken; no other slot changes |
| Profiler.StopChangesOne | profiler/src/lib.rs:91-93 | stop panics iff the name was never started; otherwise only that timer changes |
| Profiler.StartThenStop | profiler/src/lib.rs:28-34 | a start at reading t1 and a stop at reading t2 add the difference of the two u64 readings cast to i64 (t2 - t1 while both are below 2^63) to that timer and change no other slot |
| Profiler.TotalOfStartStop | profiler/src/lib.rs:28-34 | a start/stop pair adds the same difference to the sum of the timers |
| Profiler.ReportedIsSum | profiler/src/lib.rs:95-100 | when every sum fits u64, the reported total is the sum of the timers |
| Profiler.ReportedTotal | profiler/src/lib.rs:95-100 | the occupied slots' sums read as u64, added up; no contract of its own: ReportedIsSum, ReportedTotalGrows and Profiler.ReportTotal state it |
| Profiler.Profiler.constructor | profiler/src/lib.rs:63-68 | sixteen empty slots and no timers |
| Profiler.Profiler.GetTimer | profiler/src/lib.rs:70-76 | the search loop returns Lookup |
| Profiler.Profiler.Start | profiler/src/lib.rs:78-89 | the table afterwards is the start of the table before, the invariant is kept, and a panic changes nothing |
| Profiler.Profiler.Stop | profiler/src/lib.rs:91-93 | the table afterwards is the stop of the table before, the invariant is kept, and a panic changes nothing |
| Profiler.Profiler.ReportTotal | profiler/src/lib.rs:95-100 | the summing loop panics exactly when the total of the occupied slots read as u64 reaches 2^64, and otherwise returns that total |
| Profiler.ReportedTotalGrows | profiler/src/lib.rs:95-100 | the total over a prefix of the slots never exceeds the total over all of them, so an overflow part way is an overflow of the whole sum |
| Int64.AsI64 | haversine/src/repetition_tester.rs:161-171 | the u64 reading cast `as i64`: in the i64 range, congruent modulo 2^64, equal below 2^63 |
| Int64.AsU64 | profiler/src/lib.rs:95-100 | the i64 sum cast `as u64`: below 2^64, the identity on non-negative values, plus 2^64 on negative ones |
| RepetitionTester.NewResults | haversine/src/repetition_tester.rs:80-93 | min starts at i64::MAX, max and total at zero |
| RepetitionTester.NewSummarisesNothing | haversine/src/repetition_tester.rs:80-93 | the fresh results summarise no trials |
| RepetitionTester.Fold | haversine/src/repetition_tester.rs:108-120 | one finished trial folded into the results; no contract of its own: FoldSummarises and TiesKeep state the totals, min and max |
| RepetitionTester.FoldSummarises | haversine/src/repetition_tester.rs:108-120 | folding a trial keeps the totals equal to the sums, min the first fastest trial and max the first slowest |
| RepetitionTester.TiesKeep | haversine/src/repetition_tester.rs:113-119 | a trial tying min or max replaces neither |
| RepetitionTester.TimedSection | haversine/src/repetition_tester.rs:160-168 | start then end adds the elapsed ticks and the new page faults, and nothing else |
| RepetitionTester.CountsAdd | haversine/src/repetition_tester.rs:170-172 | counted bytes add up |
| RepetitionTester.StartTimer | haversine/src/repetition_tester.rs:160-163 | subtracts the clock and fault readings cast to i64; no contract of its own: TimedSection states what start then end adds |
| RepetitionTester.EndTimer | haversine/src/repetition_tester.rs:165-168 | adds the clock and fault readings cast to i64; no contract of its own: TimedSection |
| RepetitionTester.CountBytes | haversine/src/repetition_tester.rs:170-172 | adds the bytes cast to i64; no contract of its own: CountsAdd |
| RepetitionTester.AverageTimeAsWritten | haversine/src/repetition_tester.rs:38-41 | total time over trial count + 1; no contract of its own: AverageAsWrittenHalves and CompletedAverage state it |
| RepetitionTester.AverageTime | haversine/src/repetition_tester.rs:38-41 | the corrected mean; no contract of its own: AverageOfOneTrial and CompletedAverage state it |
| RepetitionTester.AverageAsWrittenHalves | haversine/src/repetition_tester.rs:38-41 | after one trial of 100 ticks the printed average is 50, while the mean is 100 |
| RepetitionTester.AverageOfOneTrial | haversine/src/repetition_tester.rs:38-41 | for min and max, single trials, both averages are the trial's time |
| RepetitionTester.CompletedAverage | haversine/src/repetition_tester.rs:38-41 | once stopped, the corrected average is the mean time of the trials, the printed one divides by one more |
| RepetitionTester.RepetitionTester.constructor | haversine/src/repetition_tester.rs:97-105 | end time is now + duration, expected bytes stored, results fresh, state NotStarted |
| RepetitionTester.RepetitionTester.RunNewTrial | haversine/src/repetition_tester.rs:107-158 | a running trial is folded; at the deadline it panics iff the bytes differ from those expected, else it completes and returns false; otherwise it counts a new trial, resets curr and returns true |
| RepetitionTester.RepetitionTester.StartTrialTimer | haversine/src/repetition_tester.rs:160-163 | subtracts the clock and fault readings from curr and changes nothing else |
| RepetitionTester.RepetitionTester.EndTrialTimer | haversine/src/repetition_tester.rs:165-168 | adds the clock and fault readings to curr and changes nothing else |
| RepetitionTester.RepetitionTester.CountTrialBytes | haversine/src/repetition_tester.rs:170-172 | adds the bytes to curr and changes nothing else |

## Left out

- The `print!`/`println!` tracing in `set_reg`, `update_flags_from_value`, `estimate_cycles` and `run_new_trial`, the register and flag dumps of `exec`, and the float formatting in `print_result` and the profiler's report: the model treats them as no-ops. Only the integer average `print_result` computes is modelled. `exec`'s `print!("{inst}")` can panic, so `StepAsWritten` does model it, through `InstTextAsWritten`.
- sim8086/src/main.rs is not part of this model. It runs the external `nasm` assembler, reads stdin and writes files. The reference assembler `Encode` stands in for the assembler where the round trip needs one.
- The test listings that the sim8086 tests assemble with `nasm` are not part of this model. So the register values and the cycle totals 194 and 291 that those tests expect are not restated; only the "PZ" flag text is.
- Sim8086Exec.Exec: runs for at most `fuel` turns and reports whether HLT was reached, because a JNE or LOOP program need not terminate. It runs the corrected `Step`; `RunAgrees` relates that run to the loop as written.
- JsonParse.Lex: a number is kept as its lexeme. The f64 value from `str::parse` is not modelled; a lexeme without a digit is the only parse failure.
- JsonAccess.AsNumber: returns the lexeme rather than an f64, for the same reason. The by-reference `From<&JsonValue>` conversions (haversine/src/util.rs:88-116) behave exactly like the by-value ones and share their members.
- JsonParse.ParseRoundTrip: covers every valid value in every layout chosen per depth. Siblings at one depth share their spacing. A string containing a quote cannot be printed, since the tokenizer has no escapes.
- The global `lazy_static` mutex around the profiler, the proc macros that insert `start`/`stop` calls, and the hardware clock and page-fault reads (`asm!`, `getrusage`): the clock and fault counts are parameters instead.
- Profiler.Profiler.ReportTotal: only the integer total of `report` is modelled. Each timer's percentage divides in floating point, and its numerator `100 * self.sum_delta` (profiler/src/lib.rs:43) is an i64 product that panics in a debug build once a sum exceeds about 9.2 * 10^16 ticks; that panic is left out, like the i64 `-=`/`+=` overflow below.
- Profiler.StartThenStop: the debug-build panic of the i64 `-=` and `+=` on a timer's sum is not modelled; it needs a sum beyond 2^63 ticks. The `as i64` cast of the reading is modelled.
- Profiler.TotalOfStartStop: the same i64 overflow of the sums is left out.
- RepetitionTester.RepetitionTester.RunNewTrial: does not model `trial_count` as a `u32` that could wrap, nor i64 overflow of the totals; both need more than 2^31 trials or 2^63 ticks.
- Sim8086Parse.FromEncoding: the corrected decoder. It reads the address of A0 and A2 as two bytes, and it keeps the direct address [0]. `FromEncodingAsWritten` is the code as written, and `AsWrittenAgrees` states where the two part.
- Sim8086Parse.OperandFromRm: built on the corrected `EffAddrFromEncoding`. As written, the direct address [0] (mod 00, r/m 110, displacement 0) comes back with no component; see `EffAddrAsWrittenRenormalises`.
- Sim8086Parse.ModRegRm: the same difference on [0], through `OperandFromRm`.
- Sim8086Parse.ImmToRm: the same difference on [0], through `OperandFromRm`.
- Sim8086Encoding.DecodeMatchesTable: states the corrected lengths. As written, A0 and A2 consume 2 bytes, not 3 (`AsWrittenAgrees`, `ByteAccDecoded`).
- Sim8086Encoding.EaRoundTrip: holds for the corrected decoder. As written, [0] comes back with no component (`DirectZeroDecoded`).
- Sim8086Encoding.RmRoundTrip: the same difference for an r/m operand at [0].
- Sim8086Encoding.ModRegRmRoundTrip: the same difference for an operand at [0].
- Sim8086Encoding.ImmToRmRoundTrip: the same difference for a destination at [0].
- Sim8086Encoding.EncodeDecode: holds for the corrected decoder. `EncodeDecodeAsWritten` is the version for the code as written: an instruction comes back unchanged exactly when none of its addresses has displacement 0.
- Sim8086Encoding.DecodeWellFormed: holds for the corrected decoder. As written, [0] decodes to an address with no component, which is not well formed (`DirectZeroDecoded`).
- Sim8086Text.DecodedTextRoundTrip: holds for the corrected decoder and printer. As written, printing panics on 75 7E and 8B 87 00 80 (`RelOverflowAsWritten`, `AbsOverflowAsWritten`, `InstTextAgrees`), and [0] prints as `[]` (`DirectZeroText`).
- Sim8086Text.Disassemble: prints with the corrected `InstText`. As written, it panics on the instructions `InstTextAgrees` names.
- Sim8086Stream.InstStream.Next: steps with the corrected decoder. As written, A0 and A2 advance by 2, and [0] is yielded with no component (`AsWrittenAgrees`).
- Sim8086Stream.DisassembleBinary: uses the corrected decoder and printer, with the differences above.
- Sim8086Stream.ListingReadsBack: holds for the corrected decoder and printer. As written, the listing panics or loses the address [0] as above.
- Sim8086Stream.EncodedProgramDecodes: holds for the corrected decoder. As written, an instruction with the address [0] comes back renormalised (`EncodeDecodeAsWritten`).
- Sim8086Machine.NextInstr: fetches with the corrected decoder. `NextInstrAsWritten` fetches as written.
- Sim8086Machine.Execute: ADD wraps. As written, an ADD whose sum carries panics (`ExecuteAsWritten`, `ExecuteAgrees`).
- Sim8086Machine.Step: the corrected turn, which does not print and whose ADD wraps. `StepAsWritten` adds the decoder as written, the panicking print and the panicking ADD. `StepAgrees` and `RunAgrees` state where the two coincide, and `RelOverflowTurn` and `DirectZeroTurn` give turns where they part (the print panic on 75 7E, the `ea_cycles` panic on 8B 06 00 00).
- Sim8086Exec.State.NextInstr: follows the corrected `NextInstr`. The code as written is modelled only as functions (`NextInstrAsWritten`).
- Sim8086Exec.State.Execute: follows the corrected `Execute`; see `ExecuteAgrees` for the ADD panic.
- Sim8086Exec.State.Step: follows the corrected `Step`; see `StepAgrees`.
- haversine/src/cpu_profiling.rs, calc.rs, generate.rs, allocator.rs and the file and mmap helpers of util.rs are not part of this model: they are inline-assembly benchmarks, f64 trigonometry, random generation and raw memory mapping.

## Findings

| source | as written | input that shows it | evidently intended | confidence | as-written member | corrected member |
|---|---|---|---|---|---|---|
| sim8086/src/parse.rs:153-155 | a zero displacement is dropped even for the direct address, leaving an address with no component | bytes 8B 06 00 00 (`mov ax, [0]`) decode to an empty address, printed `[]`; `ea_cycles` panics on it | keep the displacement of a direct address | high, not executed | Sim8086Parse.DirectZeroAsWritten | Sim8086Parse.DirectZeroIntended |
| sim8086/src/parse.rs:172-182 | `offset.abs()` on an i16 | bytes 8B 87 00 80 (`mov ax, [bx - 32768]`) panic in debug builds when printed | print the magnitude 32768 | high, not executed | Sim8086Text.AbsOverflowAsWritten | Sim8086Text.AbsOverflowIntended |
| sim8086/src/parse.rs:290-299 | `x + 2` computed in i8 | bytes 75 7E (`jne` with offset 126) panic in debug builds when printed | print `$+128+0` | high, not executed | Sim8086Text.RelOverflowAsWritten | Sim8086Text.RelOverflowIntended |
| sim8086/src/exec.rs:360 | ADD uses unchecked u16 `+` while SUB and CMP wrap | ADD of 0xFFFF and 1 panics in debug builds | wrapping add, as the 8086 does | medium, not executed | Sim8086Machine.AddOverflowExhibit | Sim8086Machine.AddStores |
| sim8086/src/parse.rs:518-550 | the memory address of A0/A2 is read with the data width w | bytes A0 10 00 (`mov al, [16]`) are taken as two bytes, the 00 left as the next opcode | the address is always two bytes | high, not executed | Sim8086Parse.ByteAccAddressAsWritten | Sim8086Parse.ByteAccAddressIntended |
| haversine/src/repetition_tester.rs:38-41 | the average divides by `trial_count + 1` | one trial of 100 ticks prints an average of 50 | divide the total by the number of trials | medium, not executed | RepetitionTester.AverageAsWrittenHalves | RepetitionTester.CompletedAverage |
