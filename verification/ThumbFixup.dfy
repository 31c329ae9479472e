/** What the Thumb-2 fixup does to the 32-bit value loaded by a MOVW/MOVT pair. */
module ThumbFixup {
  import opened Numbers
  import opened Bytes
  import opened Relocation
  import opened RelocationMeaning

  /** The bits of an instruction that are not part of its immediate: the mask 0x8f00fbf0. */
  function Kept(inst: nat): nat {
    Word(0, OpcodeA(inst), 0, OpcodeB(inst), 0, Register(inst), 0, OpcodeC(inst))
  }

  lemma WordFields(imm4: nat, a: nat, i: nat, b: nat, imm8: nat, rd: nat, imm3: nat, c: nat)
    requires imm4 < 0x10 && a < 0x40 && i < 2 && b < 0x20 && imm8 < 0x100 && rd < 0x10 && imm3 < 8 && c < 2
    ensures var w := Word(imm4, a, i, b, imm8, rd, imm3, c);
      && w < 0x1_0000_0000
      && Imm4(w) == imm4 && OpcodeA(w) == a && ImmI(w) == i && OpcodeB(w) == b
      && Imm8(w) == imm8 && Register(w) == rd && Imm3(w) == imm3 && OpcodeC(w) == c
  {
    var w := Word(imm4, a, i, b, imm8, rd, imm3, c);
    var w1 := a + i * 0x40 + b * 0x80 + imm8 * 0x1000 + rd * 0x10_0000 + imm3 * 0x100_0000 + c * 0x800_0000;
    Digit(w, 0x10, w1, imm4);
    var w2 := i + b * 2 + imm8 * 0x40 + rd * 0x4000 + imm3 * 0x4_0000 + c * 0x20_0000;
    Digit(w1, 0x40, w2, a);
    Tail(w, 0x10, 0x40);
    var w3 := b + imm8 * 0x20 + rd * 0x2000 + imm3 * 0x2_0000 + c * 0x10_0000;
    Digit(w2, 2, w3, i);
    Tail(w, 0x400, 2);
    var w4 := imm8 + rd * 0x100 + imm3 * 0x1000 + c * 0x8000;
    Digit(w3, 0x20, w4, b);
    Tail(w, 0x800, 0x20);
    var w5 := rd + imm3 * 0x10 + c * 0x80;
    Digit(w4, 0x100, w5, imm8);
    Tail(w, 0x1_0000, 0x100);
    var w6 := imm3 + c * 8;
    Digit(w5, 0x10, w6, rd);
    Tail(w, 0x100_0000, 0x10);
    Digit(w6, 8, c, imm3);
    Tail(w, 0x1000_0000, 8);
  }

  lemma Digit(x: nat, d: nat, q: nat, r: nat)
    requires r < d && x == q * d + r
    ensures x / d == q && x % d == r
  {
    QuotientIs(x, d, q, r);
  }

  /** Writing an immediate and reading it back. */
  lemma ImmediateOf(inst: nat, imm: nat)
    ensures WithImm(inst, imm) < 0x1_0000_0000
    ensures Imm16(WithImm(inst, imm)) == imm % 0x1_0000
    ensures Kept(WithImm(inst, imm)) == Kept(inst)
    ensures IsMovw(WithImm(inst, imm)) == IsMovw(inst) && IsMovt(WithImm(inst, imm)) == IsMovt(inst)
  {
    hide Imm4, ImmI, Imm3, Imm8, OpcodeA, OpcodeB, OpcodeC, Register, Word;
    FieldRanges(inst);
    WordFields(imm / 0x1000 % 0x10, OpcodeA(inst), imm / 0x800 % 2, OpcodeB(inst), imm % 0x100, Register(inst),
      imm / 0x100 % 8, OpcodeC(inst));
    Tail(imm, 0x100, 8);
    Tail(imm, 0x800, 2);
    Tail(imm, 0x1000, 0x10);
  }

  lemma FieldRanges(inst: nat)
    ensures OpcodeA(inst) < 0x40 && OpcodeB(inst) < 0x20 && Register(inst) < 0x10 && OpcodeC(inst) < 2
  {
  }

  /** value + delta stays within 32 bits. */
  predicate Fits(value: nat, delta: Delta) {
    value + Delta32(delta) < 0x1_0000_0000
  }

  /** Adding by halves with a carry is adding. */
  lemma CarryChain(movw: nat, movt: nat, delta: Delta)
    ensures var sum := MovwSum(movw, delta);
            var hi := HighDelta(sum, delta);
            && (hi == 0 || MovtSum(movt, hi) <= 0xffff <==> Fits(PairValue(movw, movt), delta))
            && MovtSum(movt, hi) * 0x1_0000 + sum % 0x1_0000 == PairValue(movw, movt) + Delta32(delta)
  {
    hide Imm16;
  }

  /** Something has to be added to the MOVT word. */
  predicate ReachesMovt(movw: nat, delta: Delta) { HighDelta(MovwSum(movw, delta), delta) != 0 }

  /**
   The Thumb MOV32 fixup of the pair stored in the 8 bytes s: it succeeds exactly when the first word is a MOVW and,
   if anything has to be added to the second word, that is a MOVT and value + delta fits in 32 bits. Then the pair
   loads that sum and keeps its opcodes and registers, and a second word that needs nothing is left alone.
   */
  lemma ThumbFixupAdds(s: seq<byte>, delta: Delta)
    requires |s| == 8
    ensures var (s', v) := FixUp(s, 0, THUMB_MOV32, delta);
            var movw, movt := U32(s, 0), U32(s, 4);
            var value := PairValue(movw, movt);
            && (v.Fine? <==> IsMovw(movw) && (ReachesMovt(movw, delta) ==> IsMovt(movt) && Fits(value, delta)))
            && (!v.Fine? ==> v == Failed(if !IsMovw(movw) then WrongMovw(movw)
                                         else if !IsMovt(movt) then WrongMovt(movt)
                                         else DoesNotFit(MovtSum(movt, HighDelta(MovwSum(movw, delta), delta)))))
            && (v.Fine? ==>
                  && Fits(value, delta) && PairValue(U32(s', 0), U32(s', 4)) == value + Delta32(delta)
                  && Kept(U32(s', 0)) == Kept(movw) && Kept(U32(s', 4)) == Kept(movt)
                  && IsMovw(U32(s', 0)) && IsMovt(U32(s', 4)) == IsMovt(movt)
                  && (!ReachesMovt(movw, delta) ==> U32(s', 4) == movt))
  {
    hide IsMovw, IsMovt, MovwSum, MovtSum, HighDelta, Imm16, WithImm, Kept, Fits, Delta32;
    var movw, movt := U32(s, 0), U32(s, 4);
    var sum := MovwSum(movw, delta);
    var hi := HighDelta(sum, delta);
    CarryChain(movw, movt, delta);
    ImmediateOf(movw, sum);
    var s1 := Set(s, 0, 4, WithImm(movw, sum));
    SetWord(s, 0, WithImm(movw, sum));
    if hi == 0 {
      NothingToCarry(movt);
    } else {
      ImmediateOf(movt, MovtSum(movt, hi));
      SetWord(s1, 4, WithImm(movt, MovtSum(movt, hi)));
    }
  }

  lemma NothingToCarry(movt: nat)
    ensures MovtSum(movt, 0) == Imm16(movt)
  {
  }

  lemma SetWord(s: seq<byte>, p: nat, v: nat)
    requires |s| == 8 && (p == 0 || p == 4) && v < 0x1_0000_0000
    ensures U32(Set(s, p, 4, v), p) == v && U32(Set(s, p, 4, v), 4 - p) == U32(s, 4 - p)
  {
    GetOfSet(s, p, 4, v);
    GetElsewhere(s, p, 4, v, 4 - p, 4);
    Moduli();
  }

  /** The same for every MOVW/MOVT pair a relocation table lists, in the relocated image. */
  lemma RelocationAddsToPairs(m: seq<byte>, directory: Directory, blocks: seq<Block>, delta: Delta, i: nat)
    requires Relocatable(m, directory, blocks) && Relocate(m, directory, delta).1 == Done(true)
    requires i < |TableFixups(blocks)| && TableFixups(blocks)[i].kind == 7
    ensures var p := TableFixups(blocks)[i].site; p + 8 <= |m|
    ensures var p := TableFixups(blocks)[i].site;
            var m' := Relocate(m, directory, delta).0;
            var value := PairValue(U32(m, p), U32(m, p + 4));
            && |m'| == |m| && Fits(value, delta)
            && PairValue(U32(m', p), U32(m', p + 4)) == value + Delta32(delta)
            && Kept(U32(m', p)) == Kept(U32(m, p)) && Kept(U32(m', p + 4)) == Kept(U32(m, p + 4))
  {
    hide FixUp, Walk, TableAt, Relocate, Get, IsMovw, IsMovt, Kept, Fits, PairValue, TableApart, ReachesMovt;
    RelocationPatchesSites(m, directory, blocks, delta);
    SitesWithin(m, directory, blocks);
    var f := TableFixups(blocks)[i];
    var m' := Relocate(m, directory, delta).0;
    assert Within(m, f);
    GetInWindow(m, f.site, 8, 0, 4);
    GetInWindow(m, f.site, 8, 4, 4);
    GetInWindow(m', f.site, 8, 0, 4);
    GetInWindow(m', f.site, 8, 4, 4);
    ThumbFixupAdds(SiteBytes(m, f), delta);
  }

  // ----- Twice, and by zero

  /** The bits outside and inside the immediate make up the word. */
  lemma WordIsDetermined(a: nat, b: nat)
    requires a < 0x1_0000_0000 && b < 0x1_0000_0000 && Kept(a) == Kept(b) && Imm16(a) == Imm16(b)
    ensures a == b
  {
    hide Imm16, WithImm, Kept;
    Rebuilt(a);
    Rebuilt(b);
    SameFields2(a, b);
  }

  /** A word is made of its fields. */
  lemma WordOfFields(inst: nat)
    requires inst < 0x1_0000_0000
    ensures inst == Word(Imm4(inst), OpcodeA(inst), ImmI(inst), OpcodeB(inst), Imm8(inst), Register(inst), Imm3(inst),
      OpcodeC(inst))
  {
    var low, high := inst % 0x1_0000, inst / 0x1_0000;
    Tail(inst, 0x1_0000, 0x100);
    Tail(inst, 0x1_0000, 0x1000);
    Tail(inst, 0x1_0000, 0x8000);
    ModOfMod(inst, 0x10, 0x1000);
    HighHalf(high);
    LowHalf(inst);
  }

  lemma HighHalf(high: nat)
    requires high < 0x1_0000
    ensures high == high % 0x100 + high / 0x100 % 0x10 * 0x100 + high / 0x1000 % 8 * 0x1000 + high / 0x8000 % 2 * 0x8000
  {
  }

  lemma LowHalf(inst: nat)
    ensures inst % 0x1_0000
      == Imm4(inst) + OpcodeA(inst) * 0x10 + ImmI(inst) * 0x400 + OpcodeB(inst) * 0x800
  {
    Tail(inst, 0x800, 0x20);
    Tail(inst, 0x400, 2);
    Tail(inst, 0x10, 0x40);
  }

  lemma ImmediateDigits(imm4: nat, i: nat, imm3: nat, imm8: nat)
    requires imm4 < 0x10 && i < 2 && imm3 < 8 && imm8 < 0x100
    ensures var imm := imm4 * 0x1000 + i * 0x800 + imm3 * 0x100 + imm8;
      imm / 0x1000 % 0x10 == imm4 && imm / 0x800 % 2 == i && imm / 0x100 % 8 == imm3 && imm % 0x100 == imm8
  {
    var imm := imm4 * 0x1000 + i * 0x800 + imm3 * 0x100 + imm8;
    Digit(imm, 0x1000, imm4, i * 0x800 + imm3 * 0x100 + imm8);
    Digit(imm, 0x800, imm4 * 2 + i, imm3 * 0x100 + imm8);
    Digit(imm4 * 2 + i, 2, imm4, i);
    Digit(imm, 0x100, imm4 * 0x10 + i * 8 + imm3, imm8);
    Digit(imm4 * 0x10 + i * 8 + imm3, 8, imm4 * 2 + i, imm3);
  }

  /** Storing a word's own immediate changes nothing. */
  lemma Rebuilt(inst: nat)
    requires inst < 0x1_0000_0000
    ensures WithImm(inst, Imm16(inst)) == inst
  {
    WordOfFields(inst);
    ImmediateBounds(inst);
    ImmediateDigits(Imm4(inst), ImmI(inst), Imm3(inst), Imm8(inst));
    hide Imm4, ImmI, Imm3, Imm8, OpcodeA, OpcodeB, OpcodeC, Register;
  }

  lemma ImmediateBounds(inst: nat)
    ensures Imm4(inst) < 0x10 && ImmI(inst) < 2 && Imm3(inst) < 8 && Imm8(inst) < 0x100
  {
  }

  lemma SameFields2(a: nat, b: nat)
    requires Kept(a) == Kept(b) && Imm16(a) == Imm16(b)
    ensures WithImm(a, Imm16(a)) == WithImm(b, Imm16(b))
  {
    hide Imm16;
    FieldRanges(a);
    FieldRanges(b);
    WordFields(0, OpcodeA(a), 0, OpcodeB(a), 0, Register(a), 0, OpcodeC(a));
    WordFields(0, OpcodeA(b), 0, OpcodeB(b), 0, Register(b), 0, OpcodeC(b));
  }
}
