/**
 Base relocation of a mapped image.

 The image is the memory from the module's base upwards, so an RVA is an offset. Every read and write
 goes to live memory, as in the source: a fixup that lands on the relocation table changes the rest of
 the walk. `Fault` stands for an access that leaves the image and for the run-time panic of a slice whose
 length underflows.
 */
module Relocation {
  import opened Bytes

  const ABSOLUTE := 0
  const HIGH := 1
  const LOW := 2
  const HIGHLOW := 3
  const THUMB_MOV32 := 7
  const DIR64 := 10

  const BLOCK_HEADER: nat := 8

  /** A 64-bit address difference, as an unsigned word. */
  type Delta = d: int | 0 <= d < 0x1_0000_0000_0000_0000

  datatype RelocationError =
    | WrongMovw(inst: nat)
    | WrongMovt(inst: nat)
    | DoesNotFit(imm: nat)
    | Unsupported(kind: nat)

  datatype Verdict = Fine | Failed(error: RelocationError) | Fault

  datatype Outcome = Done(relocated: bool) | Error(error: RelocationError) | Crash

  datatype Directory = Directory(virtualAddress: nat, size: nat)

  // ----- Thumb-2 MOVW/MOVT immediates

  // The 32-bit word of MOVW (encoding T3) or MOVT (encoding T1), first halfword in its low half:
  //   bits 0-3 imm4, 4-9 opcode, 10 i, 11-15 opcode, 16-23 imm8, 24-27 Rd, 28-30 imm3, 31 opcode
  // and the immediate is imm4:i:imm3:imm8. The masks of the source select these fields: 0x8000fbf0 the
  // opcode bits, 0x8f00fbf0 everything but the immediate.

  function Imm4(inst: nat): nat { inst % 0x10 }

  function OpcodeA(inst: nat): nat { inst / 0x10 % 0x40 }

  function ImmI(inst: nat): nat { inst / 0x400 % 2 }

  function OpcodeB(inst: nat): nat { inst / 0x800 % 0x20 }

  function Imm8(inst: nat): nat { inst / 0x1_0000 % 0x100 }

  function Register(inst: nat): nat { inst / 0x100_0000 % 0x10 }

  function Imm3(inst: nat): nat { inst / 0x1000_0000 % 8 }

  function OpcodeC(inst: nat): nat { inst / 0x8000_0000 % 2 }

  function Word(imm4: nat, a: nat, i: nat, b: nat, imm8: nat, rd: nat, imm3: nat, c: nat): nat {
    imm4 + a * 0x10 + i * 0x400 + b * 0x800 + imm8 * 0x1_0000 + rd * 0x100_0000 + imm3 * 0x1000_0000
    + c * 0x8000_0000
  }

  function Imm16(inst: nat): (imm: nat)
    ensures imm <= 0xffff
  {
    Imm4(inst) * 0x1000 + ImmI(inst) * 0x800 + Imm3(inst) * 0x100 + Imm8(inst)
  }

  /** inst with its immediate replaced by the low 16 bits of imm. */
  function WithImm(inst: nat, imm: nat): nat {
    Word(imm / 0x1000 % 0x10, OpcodeA(inst), imm / 0x800 % 2, OpcodeB(inst), imm % 0x100, Register(inst),
      imm / 0x100 % 8, OpcodeC(inst))
  }

  predicate IsMovw(inst: nat) { OpcodeC(inst) == 0 && OpcodeB(inst) == 0x1e && OpcodeA(inst) == 0x24 }

  predicate IsMovt(inst: nat) { OpcodeC(inst) == 0 && OpcodeB(inst) == 0x1e && OpcodeA(inst) == 0x2c }

  /** uint32(delta). */
  function Delta32(delta: Delta): nat { delta % 0x1_0000_0000 }

  function MovwSum(inst: nat, delta: Delta): nat {
    Imm16(inst) + Delta32(delta) % 0x1_0000
  }

  function HighDelta(sum: nat, delta: Delta): nat {
    Delta32(delta) / 0x1_0000 + sum / 0x1_0000
  }

  function MovtSum(inst: nat, hi: nat): nat {
    Imm16(inst) + hi
  }

  /** The 32-bit value a MOVW/MOVT pair loads. */
  function PairValue(movw: nat, movt: nat): nat {
    Imm16(movt) * 0x1_0000 + Imm16(movw)
  }

  // ----- One fixup

  /** The kinds that add a part of delta to one field. */
  predicate IsAdditive(kind: nat) { kind == LOW || kind == HIGH || kind == HIGHLOW || kind == DIR64 }

  function FieldWidth(kind: nat): nat {
    if kind == LOW || kind == HIGH then 2 else if kind == HIGHLOW then 4 else if kind == DIR64 then 8 else 0
  }

  /** The part of delta that a fixup of the given kind adds. */
  function Addend(kind: nat, delta: Delta): nat {
    if kind == LOW then delta % 0x1_0000
    else if kind == HIGH then Delta32(delta) / 0x1_0000
    else if kind == HIGHLOW then Delta32(delta)
    else delta
  }

  /** m with d added to the w-byte field at offset p, modulo the width of the field. */
  function AddToField(m: seq<byte>, p: nat, w: nat, d: nat): (r: seq<byte>)
    requires p + w <= |m|
    ensures |r| == |m|
  {
    Set(m, p, w, Get(m, p, w) + d)
  }

  /** Memory and verdict after the fixup of the given kind at offset p. */
  function FixUp(m: seq<byte>, p: nat, kind: nat, delta: Delta): (r: (seq<byte>, Verdict))
    ensures |r.0| == |m|
  {
    if kind == ABSOLUTE then (m, Fine)
    else if IsAdditive(kind) then
      if p + FieldWidth(kind) > |m| then (m, Fault)
      else (AddToField(m, p, FieldWidth(kind), Addend(kind, delta)), Fine)
    else if kind == THUMB_MOV32 then FixUpThumb(m, p, delta)
    else (m, Failed(Unsupported(kind)))
  }

  function FixUpThumb(m: seq<byte>, p: nat, delta: Delta): (r: (seq<byte>, Verdict))
    ensures |r.0| == |m|
  {
    if p + 4 > |m| then (m, Fault) else
    var movw := U32(m, p);
    if !IsMovw(movw) then (m, Failed(WrongMovw(movw))) else
    var sum := MovwSum(movw, delta);
    var hi := HighDelta(sum, delta);
    var m1 := Set(m, p, 4, WithImm(movw, sum));
    if hi == 0 then (m1, Fine) else AddToMovt(m1, p + 4, hi)
  }

  function AddToMovt(m: seq<byte>, p: nat, hi: nat): (r: (seq<byte>, Verdict))
    ensures |r.0| == |m|
  {
    if p + 4 > |m| then (m, Fault) else
    var movt := U32(m, p);
    if !IsMovt(movt) then (m, Failed(WrongMovt(movt))) else
    var top := MovtSum(movt, hi);
    if top > 0xffff then (m, Failed(DoesNotFit(top))) else
    (Set(m, p, 4, WithImm(movt, top)), Fine)
  }

  // ----- The walk

  /** Entries i.. of the n entries of the block whose header is at offset block. */
  function Entries(m: seq<byte>, block: nat, va: nat, i: nat, n: nat, delta: Delta): (r: (seq<byte>, Verdict))
    requires i <= n
    ensures |r.0| == |m|
    decreases n - i
  {
    var p := block + BLOCK_HEADER + 2 * i;
    if i == n then (m, Fine)
    else if p + 2 > |m| then (m, Fault)
    else
      var info := U16(m, p);
      var (m1, v) := FixUp(m, va + Offset(info), Kind(info), delta);
      if v.Fine? then Entries(m1, block, va, i + 1, n, delta) else (m1, v)
  }

  /** The upper 4 bits of an entry. */
  function Kind(info: nat): nat { info / 0x1000 }

  /** The lower 12 bits of an entry. */
  function Offset(info: nat): nat { info % 0x1000 }

  /** Memory and verdict of the walk over the blocks from offset pos. */
  function Walk(m: seq<byte>, pos: nat, delta: Delta): (r: (seq<byte>, Verdict))
    ensures |r.0| == |m|
    decreases if pos <= |m| then |m| - pos else 0, if pos + 8 <= |m| && U32(m, pos + 4) >= 8 then 1 else 0
  {
    if pos + 4 > |m| then (m, Fault)
    else if U32(m, pos) == 0 then (m, Fine)
    else if pos + 8 > |m| then (m, Fault)
    else
      var size := U32(m, pos + 4);
      if size < BLOCK_HEADER then (m, Fault) else
      var (m1, v) := Entries(m, pos, U32(m, pos), 0, (size - BLOCK_HEADER) / 2, delta);
      if v.Fine? then Walk(m1, pos + U32(m1, pos + 4), delta) else (m1, v)
  }

  function Relocate(m: seq<byte>, directory: Directory, delta: Delta): (r: (seq<byte>, Outcome))
    ensures |r.0| == |m|
  {
    if directory.size == 0 then (m, Done(delta == 0)) else
    var (m1, v) := Walk(m, directory.virtualAddress, delta);
    (m1, match v case Fine => Done(true) case Failed(e) => Error(e) case Fault => Crash)
  }

  method FixUpInPlace(image: array<byte>, p: nat, kind: nat, delta: Delta) returns (v: Verdict)
    modifies image
    ensures (image[..], v) == FixUp(old(image[..]), p, kind, delta)
  {
    if kind == ABSOLUTE {
      v := Fine;
    } else if IsAdditive(kind) {
      var w := FieldWidth(kind);
      if p + w > image.Length { return Fault; }
      Put(image, p, w, Get(image[..], p, w) + Addend(kind, delta));
      v := Fine;
    } else if kind == THUMB_MOV32 {
      v := FixUpThumbInPlace(image, p, delta);
    } else {
      v := Failed(Unsupported(kind));
    }
  }

  method FixUpThumbInPlace(image: array<byte>, p: nat, delta: Delta) returns (v: Verdict)
    modifies image
    ensures (image[..], v) == FixUpThumb(old(image[..]), p, delta)
  {
    hide U32, IsMovw, IsMovt, MovwSum, MovtSum, HighDelta, WithImm;
    if p + 4 > image.Length { return Fault; }
    var inst := U32(image[..], p);
    if !IsMovw(inst) { return Failed(WrongMovw(inst)); }
    var imm16 := MovwSum(inst, delta);
    var hiDelta := HighDelta(imm16, delta);
    Put(image, p, 4, WithImm(inst, imm16));
    if hiDelta != 0 {
      if p + 8 > image.Length { return Fault; }
      inst := U32(image[..], p + 4);
      if !IsMovt(inst) { return Failed(WrongMovt(inst)); }
      imm16 := MovtSum(inst, hiDelta);
      if imm16 > 0xffff { return Failed(DoesNotFit(imm16)); }
      Put(image, p + 4, 4, WithImm(inst, imm16));
    }
    v := Fine;
  }

  /** Patches the image in place; terminates on every memory, also when a fixup rewrites the table. */
  method PerformBaseRelocation(image: array<byte>, directory: Directory, delta: Delta) returns (r: Outcome)
    modifies image
    ensures (image[..], r) == Relocate(old(image[..]), directory, delta)
  {
    hide Entries, U32;
    if directory.size == 0 {
      return Done(delta == 0);
    }
    var pos := directory.virtualAddress;
    ghost var length := image.Length;
    while true
      invariant Walk(old(image[..]), directory.virtualAddress, delta) == Walk(image[..], pos, delta)
      decreases if pos <= length then length - pos else 0,
        if pos + 8 <= length && U32(image[..], pos + 4) >= 8 then 1 else 0
    {
      if pos + 4 > image.Length { return Crash; }
      var va := U32(image[..], pos);
      if va == 0 { return Done(true); }
      if pos + 8 > image.Length { return Crash; }
      var size := U32(image[..], pos + 4);
      if size < BLOCK_HEADER { return Crash; }
      var v := RelocateBlock(image, pos, va, (size - BLOCK_HEADER) / 2, delta);
      match v {
        case Fault => return Crash;
        case Failed(e) => return Error(e);
        case Fine =>
      }
      pos := pos + U32(image[..], pos + 4);
    }
  }

  method RelocateBlock(image: array<byte>, block: nat, va: nat, n: nat, delta: Delta) returns (v: Verdict)
    modifies image
    ensures (image[..], v) == Entries(old(image[..]), block, va, 0, n, delta)
  {
    hide U16, FixUp, Offset, Kind;
    v := Fine;
    for i := 0 to n
      invariant v.Fine?
      invariant Entries(old(image[..]), block, va, 0, n, delta) == Entries(image[..], block, va, i, n, delta)
    {
      var p := block + BLOCK_HEADER + 2 * i;
      if p + 2 > image.Length { return Fault; }
      var relInfo := U16(image[..], p);
      v := FixUpInPlace(image, va + Offset(relInfo), Kind(relInfo), delta);
      if !v.Fine? { return; }
    }
  }
}
