/** Bitwise operations on unsigned machine words, read as natural numbers. */
module Words {
  import opened Numbers

  const W32: nat := 0x1_0000_0000
  const W64: nat := 0x1_0000_0000_0000_0000

  function And(x: nat, y: nat): nat {
    if x == 0 || y == 0 then 0
    else 2 * And(x / 2, y / 2) + (if x % 2 == 1 && y % 2 == 1 then 1 else 0)
  }

  function Or(x: nat, y: nat): nat
    decreases x + y
  {
    if x == 0 && y == 0 then 0
    else 2 * Or(x / 2, y / 2) + (if x % 2 == 1 || y % 2 == 1 then 1 else 0)
  }

  /** Complement of a 64-bit word. */
  function Not(x: nat): nat
    requires x < W64
  {
    W64 - 1 - x
  }

  /** x - 1 on 64-bit words. */
  function Pred(x: nat): (r: nat)
    requires x < W64
    ensures r < W64
  {
    if x == 0 then W64 - 1 else x - 1
  }

  function AlignDown(value: nat, alignment: nat): nat
    requires alignment < W64
  {
    And(value, Not(Pred(alignment)))
  }

  function AlignUp(value: nat, alignment: nat): nat
    requires alignment < W64
  {
    And((value + Pred(alignment)) % W64, Not(Pred(alignment)))
  }

  function Pow2(n: nat): (p: nat)
    ensures p > 0
  {
    if n == 0 then 1 else 2 * Pow2(n - 1)
  }

  lemma PowersOfTwo()
    ensures Pow2(32) == W32 && Pow2(64) == W64
  {
    assert Pow2(8) == 256;
    assert Pow2(16) == 256 * Pow2(8);
    assert Pow2(24) == 256 * Pow2(16);
    assert Pow2(32) == 256 * Pow2(24);
    assert Pow2(40) == 256 * Pow2(32);
    assert Pow2(48) == 256 * Pow2(40);
    assert Pow2(56) == 256 * Pow2(48);
    assert Pow2(64) == 256 * Pow2(56);
  }

  lemma PowerOfPage()
    ensures Pow2(12) == 0x1000
  {
    assert Pow2(6) == 64;
    assert Pow2(12) == 64 * Pow2(6);
  }

  // ----- What the operations do, bit by bit

  function Bit(x: nat, n: nat): nat { x / Pow2(n) % 2 }

  lemma {:induction false} AndIsBitwise(x: nat, y: nat, n: nat)
    ensures Bit(And(x, y), n) == 1 <==> Bit(x, n) == 1 && Bit(y, n) == 1
    decreases n
  {
    hide And, Bit;
    AndHalves(x, y);
    if n == 0 {
      LowestBits(x, y, And(x, y));
    } else {
      AndIsBitwise(x / 2, y / 2, n - 1);
      HigherBit(x, n);
      HigherBit(y, n);
      HigherBit(And(x, y), n);
    }
  }

  lemma {:induction false} OrIsBitwise(x: nat, y: nat, n: nat)
    ensures Bit(Or(x, y), n) == 1 <==> Bit(x, n) == 1 || Bit(y, n) == 1
    decreases n
  {
    hide Or, Bit;
    OrHalves(x, y);
    if n == 0 {
      LowestBits(x, y, Or(x, y));
    } else {
      OrIsBitwise(x / 2, y / 2, n - 1);
      HigherBit(x, n);
      HigherBit(y, n);
      HigherBit(Or(x, y), n);
    }
  }

  lemma AndHalves(x: nat, y: nat)
    ensures And(x, y) / 2 == And(x / 2, y / 2)
    ensures And(x, y) % 2 == 1 <==> x % 2 == 1 && y % 2 == 1
  {
    hide And;
    AndStep(x, y);
  }

  lemma OrHalves(x: nat, y: nat)
    ensures Or(x, y) / 2 == Or(x / 2, y / 2)
    ensures Or(x, y) % 2 == 1 <==> x % 2 == 1 || y % 2 == 1
  {
  }

  lemma LowestBits(x: nat, y: nat, z: nat)
    ensures Bit(x, 0) == x % 2 && Bit(y, 0) == y % 2 && Bit(z, 0) == z % 2
  {
  }

  /** Masking with one bit asks for that bit. */
  lemma {:induction false} AndOneBit(x: nat, n: nat)
    ensures And(x, Pow2(n)) == if Bit(x, n) == 1 then Pow2(n) else 0
    decreases n
  {
    hide And;
    AndStep(x, Pow2(n));
    if n == 0 {
      AndZero(x / 2);
    } else {
      AndOneBit(x / 2, n - 1);
      HigherBit(x, n);
    }
  }

  lemma HigherBit(x: nat, n: nat)
    requires n > 0
    ensures Bit(x, n) == Bit(x / 2, n - 1)
  {
    Tail(x, 2, Pow2(n - 1));
  }

  lemma {:induction false} AndBound(x: nat, y: nat)
    ensures And(x, y) <= x && And(x, y) <= y
  {
    if x == 0 || y == 0 {
    } else {
      AndBound(x / 2, y / 2);
    }
  }

  lemma AndStep(x: nat, y: nat)
    ensures And(x, y) == 2 * And(x / 2, y / 2) + (if x % 2 == 1 && y % 2 == 1 then 1 else 0)
  {
    if x == 0 || y == 0 {
      AndZero(x / 2);
      AndZero(y / 2);
    }
  }

  lemma AndZero(x: nat)
    ensures And(x, 0) == 0 && And(0, x) == 0
  {
  }

  /** A mask of n ones keeps the low n bits. */
  lemma {:induction false} AndLow(x: nat, n: nat)
    ensures And(x, Pow2(n) - 1) == x % Pow2(n)
  {
    hide And;
    if n == 0 {
      AndZero(x);
    } else {
      AndLow(x / 2, n - 1);
      AndLowStep(x, Pow2(n - 1));
    }
  }

  lemma AndLowStep(x: nat, p: nat)
    requires p > 0 && And(x / 2, p - 1) == x / 2 % p
    ensures And(x, 2 * p - 1) == x % (2 * p)
  {
    hide And;
    AndStep(x, 2 * p - 1);
    Tail(x, 2, p);
  }

  /** Masking with the complement takes away what masking keeps. */
  lemma {:induction false} AndComplement(x: nat, m: nat, w: nat)
    requires x < Pow2(w) && m < Pow2(w)
    ensures And(x, Pow2(w) - 1 - m) + And(x, m) == x
  {
    if w == 0 || x == 0 {
    } else {
      var c := Pow2(w) - 1 - m;
      assert c / 2 == Pow2(w - 1) - 1 - m / 2 && c % 2 == 1 - m % 2;
      AndComplement(x / 2, m / 2, w - 1);
    }
  }

  /** Words without a common bit: the lower one fits under the trailing zeros of the other. */
  lemma {:induction false} OrDisjoint(high: nat, low: nat, n: nat)
    requires low < Pow2(n)
    ensures Or(low, high * Pow2(n)) == high * Pow2(n) + low
  {
    if n == 0 {
      OrZero(high);
    } else {
      var h := high * Pow2(n);
      assert h == 2 * (high * Pow2(n - 1));
      OrDisjoint(high, low / 2, n - 1);
    }
  }

  lemma {:induction false} OrZero(x: nat)
    ensures Or(0, x) == x
  {
    if x == 0 {
    } else {
      OrZero(x / 2);
    }
  }

  /** For a power of two, aligning down drops the remainder. */
  lemma AlignDownIs(value: nat, n: nat)
    requires n < 64 && value < W64
    ensures Pow2(n) < W64 && AlignDown(value, Pow2(n)) == value - value % Pow2(n)
  {
    hide And, Pow2;
    PowersOfTwo();
    Pow2Monotone(n, 63);
    TopPower();
    AndComplement(value, Pow2(n) - 1, 64);
    AndLow(value, n);
  }

  lemma TopPower()
    ensures 2 * Pow2(63) == Pow2(64)
  {
  }

  lemma {:induction false} Pow2Monotone(m: nat, n: nat)
    requires m <= n
    ensures Pow2(m) <= Pow2(n)
    decreases n
  {
    if m == n {
    } else {
      Pow2Monotone(m, n - 1);
    }
  }

  /** Aligning up never loses anything, for every non-zero alignment, as long as the sum does not wrap. */
  lemma AlignUpCovers(value: nat, alignment: nat)
    requires 0 < alignment < W64 && value + alignment <= W64
    ensures value <= AlignUp(value, alignment)
  {
    hide And, Pow2;
    PowersOfTwo();
    var m := alignment - 1;
    AndComplement(value + m, m, 64);
    AndBound(value + m, m);
  }

  /** The mask for alignment zero is empty. */
  lemma AlignToZero(value: nat)
    ensures AlignUp(value, 0) == 0 && AlignDown(value, 0) == 0
  {
  }

  lemma {:induction false} AndSelf(x: nat)
    ensures And(x, x) == x
  {
    if x == 0 {
    } else {
      AndSelf(x / 2);
    }
  }

  /** Zero is aligned. */
  lemma AlignUpZero(alignment: nat)
    requires alignment < W64
    ensures AlignUp(0, alignment) == 0
  {
    hide And, Pow2;
    var m := Pred(alignment);
    PowersOfTwo();
    AndComplement(m, m, 64);
    AndSelf(m);
  }

  /** For a power of two, aligning up gives the least multiple that is not smaller. */
  lemma AlignUpIs(value: nat, n: nat, alignment: nat)
    requires n < 64 && alignment == Pow2(n) && value + alignment <= W64
    ensures alignment < W64
    ensures var r := AlignUp(value, alignment); r % alignment == 0 && value <= r < value + alignment
  {
    hide AlignUp, AlignDown, Pow2;
    AlignDownIs(value + alignment - 1, n);
    RoundedDown(value + alignment - 1, alignment);
    RoundsUp(value, alignment);
  }

  lemma RoundsUp(value: nat, alignment: nat)
    requires 0 < alignment < W64 && value + alignment <= W64
    ensures AlignUp(value, alignment) == AlignDown(value + alignment - 1, alignment)
  {
    hide And;
    SmallMod(value + alignment - 1, W64);
  }

  lemma RoundedDown(x: nat, d: nat)
    requires d > 0
    ensures (x - x % d) % d == 0
  {
    Floor(x, d);
    QuotientIs(x - x % d, d, x / d, 0);
  }

  /** Aligning up to pages of 4 KiB. */
  lemma AlignUpToPage(value: nat)
    requires value + 0x1000 <= W64
    ensures AlignUp(value, 0x1000) == value + 0xfff - (value + 0xfff) % 0x1000
  {
    hide And, Pow2;
    PowerOfPage();
    AlignDownIs(value + 0xfff, 12);
  }

  /** Aligning up a multiple of a power of two leaves it. */
  lemma AlignUpMultiple(value: nat, n: nat, alignment: nat)
    requires n < 64 && alignment == Pow2(n) < W64 && value % alignment == 0 && value + alignment <= W64
    ensures AlignUp(value, alignment) == value
  {
    hide And, Pow2, AlignUp;
    AlignUpIs(value, n, alignment);
    NextMultiple(value, AlignUp(value, alignment), alignment);
  }

  lemma NextMultiple(x: nat, y: nat, d: nat)
    requires 0 < d && x % d == 0 && y % d == 0 && x <= y < x + d
    ensures x == y
  {
    Floor(x, d);
    Floor(y, d);
    var p, q := x / d, y / d;
    if p < q {
      MulMonotone(p + 1, q, d);
    } else {
      MulMonotone(q, p, d);
    }
  }
}
