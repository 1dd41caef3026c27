// The instruction stream over a binary and the disassembly of a whole binary
// (sim8086/src/parse.rs: `InstStream`, `disassemble`).

module Sim8086Stream {
  import opened Results
  import opened Sim8086Parse
  import opened Sim8086Encoding
  import opened Sim8086Text

  /** A decoder of one instruction at the head of a byte sequence. */
  type Decoder = seq<bv8> -> Result<Option<(nat, Inst)>>

  /** A decoder that consumes at least one byte and no more than it has. */
  ghost predicate Advances(dec: Decoder)
  {
    forall bs :: dec(bs).Ok? && dec(bs).value.Some? ==> 1 <= dec(bs).value.value.0 <= |bs|
  }

  lemma FromEncodingAdvances()
    ensures Advances(FromEncoding)
  {
  }

  /** The instructions the stream yields from `iptr` on, up to the end of the
      binary or the first byte that starts no known instruction; a panic of
      the decoder ends the whole run. The stream of a binary decodes with
      `FromEncoding`. */
  function Decoded(dec: Decoder, binary: seq<bv8>, iptr: nat): Result<seq<Inst>>
    requires Advances(dec)
    decreases |binary| - iptr
  {
    if iptr >= |binary| then Ok([])
    else
      var d := dec(binary[iptr..]);
      if d.Panic? then Panic(d.msg)
      else if d.value.None? then Ok([])
      else Prepend([d.value.value.1], Decoded(dec, binary, iptr + d.value.value.0))
  }

  /** `insts` followed by the outcome `r`. */
  function Prepend(insts: seq<Inst>, r: Result<seq<Inst>>): Result<seq<Inst>>
  {
    match r
    case Ok(rest) => Ok(insts + rest)
    case Panic(m) => Panic(m)
  }

  /** `InstStream`: a binary and the position of the next instruction. */
  class InstStream {
    const binary: seq<bv8>
    var iptr: nat

    /** `InstStream::from_binary`. */
    constructor FromBinary(binary: seq<bv8>)
      ensures this.binary == binary && iptr == 0
    {
      this.binary := binary;
      iptr := 0;
    }

    /** `Iterator::next`: decodes the instruction at `iptr` and moves past
        it. At the end of the binary, or at a byte that starts no known
        instruction, it yields nothing and stays where it is. */
    method Next() returns (r: Result<Option<Inst>>)
      modifies this
      ensures (r, iptr) == Step(FromEncoding, binary, old(iptr))
    {
      r, iptr := StepBy(FromEncoding, binary, iptr);
    }
  }

  /** The body of `next` for the decoder `dec`: decode at `iptr`, and on an
      instruction move past it. */
  method StepBy(dec: Decoder, binary: seq<bv8>, iptr: nat) returns (r: Result<Option<Inst>>, next: nat)
    ensures (r, next) == Step(dec, binary, iptr)
  {
    next := iptr;
    if iptr >= |binary| {
      return Ok(None), next;
    }
    var d := dec(binary[iptr..]);
    if d.Panic? {
      r := Panic(d.msg);
    } else if d.value.None? {
      r := Ok(None);
    } else {
      next := iptr + d.value.value.0;
      r := Ok(Some(d.value.value.1));
    }
  }

  /** One call of `next` from `iptr`: what it yields and where it leaves the
      stream. */
  function Step(dec: Decoder, binary: seq<bv8>, iptr: nat): (r: (Result<Option<Inst>>, nat))
    ensures r.0.Ok? && r.0.value.Some? ==> iptr < |binary|
    ensures !(r.0.Ok? && r.0.value.Some?) ==> r.1 == iptr
  {
    if iptr >= |binary| then (Ok(None), iptr)
    else
      var d := dec(binary[iptr..]);
      if d.Panic? then (Panic(d.msg), iptr)
      else if d.value.None? then (Ok(None), iptr)
      else (Ok(Some(d.value.value.1)), iptr + d.value.value.0)
  }

  /** With a decoder that advances, a yielded instruction moves the stream
      forward and not past the end of the binary. */
  lemma StepAdvances(dec: Decoder, binary: seq<bv8>, iptr: nat)
    requires Advances(dec)
    ensures var r := Step(dec, binary, iptr);
      r.0.Ok? && r.0.value.Some? ==> iptr < r.1 <= |binary|
  {
  }

  /** What is left to decode after one step: nothing after the end, a
      panic or an unknown byte, else the rest after the instruction. */
  lemma StepDecoded(dec: Decoder, binary: seq<bv8>, iptr: nat)
    requires Advances(dec)
    ensures var (r, next) := Step(dec, binary, iptr);
      match r
      case Panic(m) => Decoded(dec, binary, iptr) == Panic(m)
      case Ok(None) => Decoded(dec, binary, iptr) == Ok([])
      case Ok(Some(i)) => Decoded(dec, binary, iptr) == Prepend([i], Decoded(dec, binary, next))
  {
  }

  /** `disassemble(InstStream::from_binary(binary))`: the listing of every
      instruction the stream yields. */
  method DisassembleBinary(binary: seq<bv8>) returns (r: Result<string>)
    ensures Advances(FromEncoding)
    ensures r == (match Decoded(FromEncoding, binary, 0)
                  case Ok(insts) => Ok(ListingText(insts))
                  case Panic(m) => Panic(m))
  {
    FromEncodingAdvances();
    var stream := new InstStream.FromBinary(binary);
    var insts: seq<Inst> := [];
    PrependNothing(Decoded(FromEncoding, binary, 0));
    while true
      invariant stream.binary == binary && stream.iptr <= |binary|
      invariant Decoded(FromEncoding, binary, 0) == Prepend(insts, Decoded(FromEncoding, binary, stream.iptr))
      decreases |binary| - stream.iptr
    {
      StepDecoded(FromEncoding, binary, stream.iptr);
      StepAdvances(FromEncoding, binary, stream.iptr);
      var next := stream.Next();
      match next
      case Panic(m) =>
        return Panic(m);
      case Ok(None) =>
        assert insts + [] == insts;
        var text := Disassemble(insts);
        return Ok(text);
      case Ok(Some(i)) =>
        PrependTwice(insts, [i], Decoded(FromEncoding, binary, stream.iptr));
        insts := insts + [i];
    }
  }

  lemma PrependNothing(r: Result<seq<Inst>>)
    ensures Prepend([], r) == r
  {
    if r.Ok? {
      assert [] + r.value == r.value;
    }
  }

  lemma PrependTwice(a: seq<Inst>, b: seq<Inst>, r: Result<seq<Inst>>)
    ensures Prepend(a, Prepend(b, r)) == Prepend(a + b, r)
  {
    if r.Ok? {
      assert a + (b + r.value) == a + b + r.value;
    }
  }

  /** A decoder whose every instruction can be encoded back. */
  ghost predicate YieldsWellFormed(dec: Decoder)
  {
    forall bs :: dec(bs).Ok? && dec(bs).value.Some? ==> WellFormed(dec(bs).value.value.1)
  }

  lemma FromEncodingWellFormed()
    ensures YieldsWellFormed(FromEncoding)
  {
    forall bs | FromEncoding(bs).Ok? && FromEncoding(bs).value.Some?
      ensures WellFormed(FromEncoding(bs).value.value.1)
    {
      DecodeWellFormed(bs);
    }
  }

  /** Every instruction a stream yields can be encoded back when its decoder's
      instructions can. */
  lemma {:induction false} DecodedWellFormed(dec: Decoder, binary: seq<bv8>, iptr: nat)
    requires Advances(dec) && YieldsWellFormed(dec)
    requires Decoded(dec, binary, iptr).Ok?
    ensures forall k :: 0 <= k < |Decoded(dec, binary, iptr).value| ==> WellFormed(Decoded(dec, binary, iptr).value[k])
    decreases |binary| - iptr
  {
    if iptr < |binary| {
      var d := dec(binary[iptr..]);
      if d.value.Some? {
        DecodedWellFormed(dec, binary, iptr + d.value.value.0);
      }
    }
  }

  /** The listing of a binary reads back as the instructions decoded from
      it. `Advances(FromEncoding)` is no condition on the binary: it holds,
      as `FromEncodingAdvances` proves, and is required only so that
      `Decoded` may be applied to the decoder. */
  lemma ListingReadsBack(binary: seq<bv8>)
    requires Advances(FromEncoding)
    requires Decoded(FromEncoding, binary, 0).Ok?
    ensures ReadListing(ListingText(Decoded(FromEncoding, binary, 0).value)) == Some(Decoded(FromEncoding, binary, 0).value)
  {
    var insts := Decoded(FromEncoding, binary, 0).value;
    FromEncodingWellFormed();
    DecodedWellFormed(FromEncoding, binary, 0);
    forall k | 0 <= k < |insts|
      ensures PrintableInst(insts[k])
    {
      WellFormedPrintable(insts[k]);
    }
    ListingRoundTrip(insts);
  }

  /** Well-formed instructions laid end to end are decoded back in order.
      `Advances(FromEncoding)` always holds (`FromEncodingAdvances`); it is
      required only so that `Decoded` may be applied to the decoder. */
  lemma {:induction false} EncodedProgramDecodes(insts: seq<Inst>)
    requires Advances(FromEncoding)
    requires forall k :: 0 <= k < |insts| ==> WellFormed(insts[k])
    ensures Decoded(FromEncoding, EncodeAll(insts), 0) == Ok(insts)
    decreases |insts|
  {
    if |insts| > 0 {
      var head := Encode(insts[0]);
      var bin := EncodeAll(insts);
      assert bin == head + EncodeAll(insts[1..]);
      EncodeDecode(insts[0], EncodeAll(insts[1..]));
      assert bin[0..] == bin;
      EncodedProgramDecodes(insts[1..]);
      DecodedShift(FromEncoding, head, EncodeAll(insts[1..]), 0);
      assert [insts[0]] + insts[1..] == insts;
    }
  }

  /** The bytes of each instruction, one after another. */
  function EncodeAll(insts: seq<Inst>): seq<bv8>
    requires forall k :: 0 <= k < |insts| ==> WellFormed(insts[k])
  {
    if |insts| == 0 then [] else Encode(insts[0]) + EncodeAll(insts[1..])
  }

  /** Decoding after a prefix of `|head|` bytes is decoding what follows it. */
  lemma {:induction false} DecodedShift(dec: Decoder, head: seq<bv8>, tail: seq<bv8>, iptr: nat)
    requires Advances(dec)
    ensures Decoded(dec, head + tail, |head| + iptr) == Decoded(dec, tail, iptr)
    decreases |tail| - iptr
  {
    var bin := head + tail;
    if iptr < |tail| {
      assert bin[|head| + iptr..] == tail[iptr..];
      var d := dec(tail[iptr..]);
      if d.Ok? && d.value.Some? {
        DecodedShift(dec, head, tail, iptr + d.value.value.0);
      }
    }
  }
}
