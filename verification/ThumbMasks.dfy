/** The masks and shifts with which the source takes Thumb-2 instructions apart select the fields of the model. */
module ThumbMasks {
  import opened Numbers
  import opened Words
  import opened Relocation

  /** Masking works on the high and the low part of a word separately. */
  lemma {:induction false} AndSplit(x: nat, m: nat, xh: nat, xl: nat, mh: nat, ml: nat, n: nat)
    requires xl < Pow2(n) && ml < Pow2(n) && x == xh * Pow2(n) + xl && m == mh * Pow2(n) + ml
    ensures And(x, m) == And(xh, mh) * Pow2(n) + And(xl, ml)
  {
    hide And;
    if n == 0 {
      AndZero(0);
    } else {
      var p := Pow2(n - 1);
      Double(xh, p);
      Double(mh, p);
      Double(And(xh, mh), p);
      Halve(xh * p, xl);
      Halve(mh * p, ml);
      AndSplit(x / 2, m / 2, xh, xl / 2, mh, ml / 2, n - 1);
      AndStep(x, m);
      AndStep(xl, ml);
    }
  }

  lemma Double(x: nat, p: nat)
    ensures x * (2 * p) == 2 * (x * p) && x * p >= 0
  {
  }

  lemma Halve(h: nat, l: nat)
    ensures (2 * h + l) / 2 == h + l / 2 && (2 * h + l) % 2 == l % 2
  {
  }

  /** A mask of w ones above bit n selects a field. */
  lemma Field(x: nat, m: nat, high: nat, low: nat, n: nat, w: nat)
    requires low < Pow2(n) && x == high * Pow2(n) + low && m == (Pow2(w) - 1) * Pow2(n)
    ensures And(x, m) == high % Pow2(w) * Pow2(n)
  {
    hide And, Pow2;
    AndSplit(x, m, high, low, Pow2(w) - 1, 0, n);
    AndZero(low);
    AndLow(high, w);
  }

  /** Numbers that agree modulo d * k have the same digit. */
  lemma SameDigit(x: nat, y: nat, d: nat, k: nat)
    requires d > 0 && k > 0 && Rem(x, d * k) == Rem(y, d * k)
    ensures x / d % k == y / d % k
  {
    Tail(x, d, k);
    Tail(y, d, k);
    QuotientIs(Rem(x, d * k), d, x / d % k, x % d);
    QuotientIs(Rem(x, d * k), d, y / d % k, y % d);
  }

  lemma Powers()
    ensures Pow2(0) == 1 && Pow2(1) == 2 && Pow2(3) == 8 && Pow2(4) == 0x10 && Pow2(5) == 0x20 && Pow2(6) == 0x40
    ensures Pow2(8) == 0x100 && Pow2(10) == 0x400 && Pow2(11) == 0x800 && Pow2(12) == 0x1000
  {
    assert Pow2(2) == 4 && Pow2(7) == 0x80 && Pow2(9) == 0x200;
  }

  lemma HighPowers()
    ensures Pow2(15) == 0x8000 && Pow2(16) == 0x1_0000 && Pow2(20) == 0x10_0000 && Pow2(28) == 0x1000_0000
  {
    Powers();
    assert Pow2(13) == 0x2000 && Pow2(14) == 0x4000;
    assert Pow2(20) == 0x10 * Pow2(16) && Pow2(24) == 0x10 * Pow2(20) && Pow2(28) == 0x10 * Pow2(24);
  }

  /** The opcode bits of the low halfword: mask 0xfbf0. */
  lemma LowOpcode(half: nat)
    requires half < 0x1_0000
    ensures And(half, 0xfbf0) == OpcodeA(half) * 0x10 + OpcodeB(half) * 0x800
  {
    hide And, Pow2;
    Powers();
    var high, low := half / 0x800, half % 0x800;
    AndSplit(half, 0xfbf0, high, low, 0x1f, 0x3f0, 11);
    AndLow(high, 5);
    Field(low, 0x3f0, low / 0x10, low % 0x10, 4, 6);
    ModOfMod(half, 0x400, 2);
    SameDigit(low, half, 0x10, 0x40);
  }

  /** The register and the top opcode bit, in the high halfword: masks 0x8000 and 0x8f00. */
  lemma HighOpcode(half: nat)
    requires half < 0x1_0000
    ensures And(half, 0x8000) == half / 0x8000 * 0x8000
    ensures And(half, 0x8f00) == half / 0x8000 * 0x8000 + half / 0x100 % 0x10 * 0x100
  {
    hide And, Pow2;
    Powers();
    HighPowers();
    var high, low := half / 0x8000, half % 0x8000;
    Field(half, 0x8000, high, low, 15, 1);
    AndSplit(half, 0x8f00, high, low, 1, 0xf00, 15);
    AndLow(high, 1);
    Field(low, 0xf00, low / 0x100, low % 0x100, 8, 4);
    ModOfMod(half, 0x1000, 8);
    SameDigit(low, half, 0x100, 0x10);
  }

  /** The masks 0x8000fbf0 and 0x8f00fbf0 keep the opcode, and the opcode with the register. */
  lemma OpcodeMasks(inst: nat)
    requires inst < W32
    ensures And(inst, 0x8000_fbf0) == Word(0, OpcodeA(inst), 0, OpcodeB(inst), 0, 0, 0, OpcodeC(inst))
    ensures And(inst, 0x8f00_fbf0) == Word(0, OpcodeA(inst), 0, OpcodeB(inst), 0, Register(inst), 0, OpcodeC(inst))
  {
    hide And, Pow2;
    HighPowers();
    var high, low := inst / 0x1_0000, inst % 0x1_0000;
    AndSplit(inst, 0x8000_fbf0, high, low, 0x8000, 0xfbf0, 16);
    AndSplit(inst, 0x8f00_fbf0, high, low, 0x8f00, 0xfbf0, 16);
    LowOpcode(low);
    HighOpcode(high);
    Parts(inst);
  }

  /** The fields of a word in its halves. */
  lemma Parts(inst: nat)
    requires inst < W32
    ensures var high, low := inst / 0x1_0000, inst % 0x1_0000;
      && OpcodeA(low) == OpcodeA(inst) && OpcodeB(low) == OpcodeB(inst)
      && high / 0x8000 == OpcodeC(inst) && high / 0x100 % 0x10 == Register(inst)
  {
    var high, low := inst / 0x1_0000, inst % 0x1_0000;
    ModOfMod(inst, 0x400, 0x40);
    SameDigit(low, inst, 0x10, 0x40);
    SameDigit(low, inst, 0x800, 0x20);
    Tail(inst, 0x1_0000, 0x8000);
    Tail(inst, 0x1_0000, 0x100);
  }

  /** The tests for MOVW and MOVT, as the source writes them. */
  lemma OpcodeTests(inst: nat)
    requires inst < W32
    ensures And(inst, 0x8000_fbf0) == 0xf240 <==> IsMovw(inst)
    ensures And(inst, 0x8000_fbf0) == 0xf2c0 <==> IsMovt(inst)
  {
    hide And;
    OpcodeMasks(inst);
  }

  /** Shifting left within 32 bits; shifting right by n bits is dividing by 2^n. */
  function ShiftLeft(x: nat, n: nat): nat { x * Pow2(n) % W32 }

  /** The immediate, as the source gathers it. */
  lemma ImmediateIsGathered(inst: nat)
    requires inst < W32
    ensures Imm16(inst) == And(ShiftLeft(inst, 1), 0x0800) + And(ShiftLeft(inst, 12), 0xf000)
      + And(inst / 0x10_0000, 0x0700) + And(inst / 0x1_0000, 0x00ff)
  {
    hide And, Pow2;
    Powers();
    HighPowers();
    MovedField(inst * 2, ShiftLeft(inst, 1), 0x800, 11, 1);
    MovedField(inst * 0x1000, ShiftLeft(inst, 12), 0xf000, 12, 4);
    MovedField(inst / 0x10_0000, inst / 0x10_0000, 0x700, 8, 3);
    AndLow(inst / 0x1_0000, 8);
    Tail(inst, 0x10_0000, 0x100);
    assert inst * 2 / 0x800 == inst / 0x400 && inst * 0x1000 / 0x1000 == inst;
  }

  /** A field of a word that was shifted, read before the word is cut to 32 bits. */
  lemma MovedField(x: nat, cut: nat, m: nat, n: nat, w: nat)
    requires n + w <= 32 && (cut == x || cut == x % W32) && m == (Pow2(w) - 1) * Pow2(n)
    ensures And(cut, m) == x / Pow2(n) % Pow2(w) * Pow2(n)
  {
    hide And, Pow2;
    Floor(cut, Pow2(n));
    Field(cut, m, cut / Pow2(n), cut % Pow2(n), n, w);
    if cut != x {
      CutKeepsField(x, n, w);
    }
  }

  lemma CutKeepsField(x: nat, n: nat, w: nat)
    requires n + w <= 32
    ensures x % W32 / Pow2(n) % Pow2(w) == x / Pow2(n) % Pow2(w)
  {
    hide Pow2;
    var d := Pow2(n) * Pow2(w);
    PowersMultiply(n, w);
    PowersMultiply(n + w, 32 - (n + w));
    PowersOfTwo();
    ModOfMod(x, d, Pow2(32 - (n + w)));
    SameDigit(x % W32, x, Pow2(n), Pow2(w));
  }

  lemma {:induction false} PowersMultiply(m: nat, n: nat)
    ensures Pow2(m) * Pow2(n) == Pow2(m + n)
  {
    if n == 0 {
    } else {
      PowersMultiply(m, n - 1);
      Double(Pow2(m), Pow2(n - 1));
    }
  }

  /** The new immediate, as the source spreads it. */
  lemma ImmediateIsSpread(inst: nat, imm: nat)
    requires inst < W32
    ensures WithImm(inst, imm) == And(inst, 0x8f00_fbf0) + And(imm / 2, 0x0400)
      + And(imm / 0x1000, 0x000f) + And(ShiftLeft(imm, 20), 0x7000_0000) + And(ShiftLeft(imm, 16), 0xff_0000)
  {
    hide And, Pow2;
    Powers();
    HighPowers();
    OpcodeMasks(inst);
    MovedField(imm / 2, imm / 2, 0x400, 10, 1);
    AndLow(imm / 0x1000, 4);
    MovedField(imm * 0x10_0000, ShiftLeft(imm, 20), 0x7000_0000, 28, 3);
    MovedField(imm * 0x1_0000, ShiftLeft(imm, 16), 0xff_0000, 16, 8);
    Tail(imm, 2, 0x400);
    assert imm * 0x10_0000 / 0x1000_0000 == imm / 0x100 && imm * 0x1_0000 / 0x1_0000 == imm;
  }
}
