/** Relocation as an action of address differences on images. */
module RelocationAlgebra {
  import opened Numbers
  import opened Bytes
  import opened Relocation
  import opened RelocationMeaning
  import opened ThumbFixup

  /** The sum of two differences, as an unsigned 64-bit word. */
  function Sum(d1: Delta, d2: Delta): Delta { (d1 + d2) % 0x1_0000_0000_0000_0000 }

  function Negated(d: Delta): Delta { (0x1_0000_0000_0000_0000 - d as int) % 0x1_0000_0000_0000_0000 }

  /** Adding the low 16 bits of the two differences does not carry. */
  predicate NoCarry(d1: Delta, d2: Delta) { d1 % 0x1_0000 + d2 % 0x1_0000 < 0x1_0000 }

  predicate HasHigh(fs: seq<Fixup>) {
    exists i | 0 <= i < |fs| :: fs[i].kind == HIGH
  }

  // ----- The parts of a sum

  lemma TopOfSum(x: nat, y: nat)
    ensures var c := (x % 0x1_0000 + y % 0x1_0000) / 0x1_0000;
      (x + y) / 0x1_0000 == x / 0x1_0000 + y / 0x1_0000 + c
  {
  }

  lemma HighAddend(d: Delta)
    ensures Addend(HIGH, d) == d / 0x1_0000 % 0x1_0000
  {
    Tail(d, 0x1_0000, 0x1_0000);
    QuotientIs(d % 0x1_0000_0000, 0x1_0000, d / 0x1_0000 % 0x1_0000, d % 0x1_0000);
  }

  lemma HighOfSum(d1: Delta, d2: Delta)
    ensures Addend(HIGH, Sum(d1, d2)) == (d1 + d2) / 0x1_0000 % 0x1_0000
  {
    var s := d1 + d2;
    HighAddend(Sum(d1, d2));
    Tail(s, 0x1_0000, 0x1_0000_0000_0000);
    QuotientIs(Sum(d1, d2), 0x1_0000, s / 0x1_0000 % 0x1_0000_0000_0000, s % 0x1_0000);
    ModOfMod(s / 0x1_0000, 0x1_0000, 0x1_0000_0000);
  }

  lemma OffByOne(z: nat, c: nat)
    requires c <= 1
    ensures z % 0x1_0000 == (z + c) % 0x1_0000 <==> c == 0
  {
  }

  lemma HighAddendAdds(d1: Delta, d2: Delta)
    ensures (Addend(HIGH, d1) + Addend(HIGH, d2)) % 0x1_0000 == Addend(HIGH, Sum(d1, d2)) <==> NoCarry(d1, d2)
  {
    hide Addend;
    HighAddend(d1);
    HighAddend(d2);
    HighOfSum(d1, d2);
    TopOfSum(d1, d2);
    AddMods(d1 / 0x1_0000, d2 / 0x1_0000, 0x1_0000);
    OffByOne(d1 / 0x1_0000 + d2 / 0x1_0000, (d1 % 0x1_0000 + d2 % 0x1_0000) / 0x1_0000);
  }

  lemma LowAddendAdds(d1: Delta, d2: Delta)
    ensures (d1 % 0x1_0000 + d2 % 0x1_0000) % 0x1_0000 == Sum(d1, d2) % 0x1_0000
  {
    AddMods(d1, d2, 0x1_0000);
    ModOfMod(d1 + d2, 0x1_0000, 0x1_0000_0000_0000);
  }

  lemma HighLowAddendAdds(d1: Delta, d2: Delta)
    ensures (Delta32(d1) + Delta32(d2)) % 0x1_0000_0000 == Delta32(Sum(d1, d2))
  {
    AddMods(d1, d2, 0x1_0000_0000);
    ModOfMod(d1 + d2, 0x1_0000_0000, 0x1_0000_0000);
  }

  lemma Dir64AddendAdds(d1: Delta, d2: Delta)
    ensures (d1 + d2) % 0x1_0000_0000_0000_0000 == Sum(d1, d2) % 0x1_0000_0000_0000_0000
  {
  }

  /** A part of a sum is the sum of the parts, except that the high part misses the carry. */
  lemma AddendAdds(kind: nat, d1: Delta, d2: Delta)
    requires IsAdditive(kind)
    ensures var M := Modulus(FieldWidth(kind));
      (Addend(kind, d1) + Addend(kind, d2)) % M == Addend(kind, Sum(d1, d2)) % M
      <==> kind != HIGH || NoCarry(d1, d2)
  {
    hide NoCarry, Sum, Delta32, Modulus;
    Moduli();
    if kind == HIGH {
      hide Addend;
      HighAddendAdds(d1, d2);
      HighAddend(Sum(d1, d2));
    } else if kind == LOW {
      LowAddendAdds(d1, d2);
      SmallMod(Addend(LOW, Sum(d1, d2)), 0x1_0000);
    } else if kind == HIGHLOW {
      HighLowAddendAdds(d1, d2);
      SmallMod(Delta32(Sum(d1, d2)), 0x1_0000_0000);
    } else {
      Dir64AddendAdds(d1, d2);
    }
  }

  // ----- One site

  lemma PatchValue(s: seq<byte>, kind: nat, d: Delta)
    requires IsAdditive(kind) && |s| == FieldWidth(kind)
    ensures var s' := Patch(s, kind, d).0;
      |s'| == |s| && Value(s') == Rem(Value(s) + Addend(kind, d), Modulus(|s|))
  {
    SiteAdds(s, kind, d);
  }

  lemma AddendValues(kind: nat, d1: Delta, d2: Delta)
    requires IsAdditive(kind)
    ensures var n := Modulus(FieldWidth(kind));
      Rem(Addend(kind, d1) + Addend(kind, d2), n) == Rem(Addend(kind, Sum(d1, d2)), n)
      <==> kind != HIGH || NoCarry(d1, d2)
  {
    hide Addend, NoCarry, Sum, Modulus, FieldWidth;
    AddendAdds(kind, d1, d2);
  }

  /** Patching one site twice, if both succeed. */
  lemma PatchTwice(s: seq<byte>, kind: nat, d1: Delta, d2: Delta)
    requires |s| == Width(kind)
    requires Patch(s, kind, d1).1.Fine? && Patch(Patch(s, kind, d1).0, kind, d2).1.Fine?
    ensures Patch(s, kind, Sum(d1, d2)).1.Fine?
    ensures Patch(Patch(s, kind, d1).0, kind, d2).0 == Patch(s, kind, Sum(d1, d2)).0
      <==> kind != HIGH || NoCarry(d1, d2)
  {
    hide NoCarry, Sum;
    if IsAdditive(kind) {
      PatchAdditiveTwice(s, kind, d1, d2);
    } else if kind == THUMB_MOV32 {
      PatchThumbTwice(s, d1, d2);
    }
  }

  lemma PatchThumbTwice(s: seq<byte>, d1: Delta, d2: Delta)
    requires |s| == 8
    requires Patch(s, THUMB_MOV32, d1).1.Fine? && Patch(Patch(s, THUMB_MOV32, d1).0, THUMB_MOV32, d2).1.Fine?
    ensures Patch(s, THUMB_MOV32, Sum(d1, d2)) == (Patch(Patch(s, THUMB_MOV32, d1).0, THUMB_MOV32, d2).0, Fine)
  {
    hide IsMovw, IsMovt, Imm16, Kept, FixUp, PairValue, U32, ReachesMovt, Delta32;
    var s1 := Patch(s, THUMB_MOV32, d1).0;
    var s2, s3 := Patch(s1, THUMB_MOV32, d2).0, Patch(s, THUMB_MOV32, Sum(d1, d2)).0;
    ThumbFixupAdds(s, d1);
    ThumbFixupAdds(s1, d2);
    ThumbFixupAdds(s, Sum(d1, d2));
    ThumbSum(PairValue(U32(s, 0), U32(s, 4)), d1, d2);
    CarriesAdd(U32(s, 0), U32(s, 4), U32(s1, 0), U32(s1, 4), d1, d2);
    SamePair(s2, s3);
  }

  /** Two sums that fit fit as one. */
  lemma ThumbSum(value: nat, d1: Delta, d2: Delta)
    requires value + Delta32(d1) + Delta32(d2) < 0x1_0000_0000
    ensures Delta32(Sum(d1, d2)) == Delta32(d1) + Delta32(d2) && Fits(value, Sum(d1, d2))
  {
    ModOfMod(d1 + d2, 0x1_0000_0000, 0x1_0000_0000);
    AddMods(d1, d2, 0x1_0000_0000);
    SmallMod(Delta32(d1) + Delta32(d2), 0x1_0000_0000);
  }

  /** When neither step reaches the second word, their sum does not either. */
  lemma CarriesAdd(movw: nat, movt: nat, movw1: nat, movt1: nat, d1: Delta, d2: Delta)
    requires Delta32(Sum(d1, d2)) == Delta32(d1) + Delta32(d2)
    requires PairValue(movw1, movt1) == PairValue(movw, movt) + Delta32(d1)
    requires !ReachesMovt(movw, d1) ==> movt1 == movt
    ensures !ReachesMovt(movw, d1) && !ReachesMovt(movw1, d2) ==> !ReachesMovt(movw, Sum(d1, d2))
  {
    hide Imm16, Sum;
  }

  /** The two words make up the site. */
  lemma SamePair(s: seq<byte>, t: seq<byte>)
    requires |s| == 8 && |t| == 8 && PairValue(U32(s, 0), U32(s, 4)) == PairValue(U32(t, 0), U32(t, 4))
    requires Kept(U32(s, 0)) == Kept(U32(t, 0)) && Kept(U32(s, 4)) == Kept(U32(t, 4))
    ensures s == t
  {
    hide Imm16, Kept, Value, Modulus;
    Moduli();
    ValueBound(s[0..4]);
    ValueBound(s[4..8]);
    ValueBound(t[0..4]);
    ValueBound(t[4..8]);
    WordIsDetermined(U32(s, 0), U32(t, 0));
    WordIsDetermined(U32(s, 4), U32(t, 4));
    SameField(s[0..4], t[0..4]);
    SameField(s[4..8], t[4..8]);
    assert s == s[0..4] + s[4..8] && t == t[0..4] + t[4..8];
  }

  lemma PatchAdditiveTwice(s: seq<byte>, kind: nat, d1: Delta, d2: Delta)
    requires IsAdditive(kind) && |s| == FieldWidth(kind)
    ensures Patch(Patch(s, kind, d1).0, kind, d2).0 == Patch(s, kind, Sum(d1, d2)).0
      <==> kind != HIGH || NoCarry(d1, d2)
  {
    hide *;
    var t, u := Patch(s, kind, d1).0, Patch(s, kind, Sum(d1, d2)).0;
    PatchValue(s, kind, d1);
    PatchValue(t, kind, d2);
    PatchValue(s, kind, Sum(d1, d2));
    RemSumsAgree(Value(s), Addend(kind, d1), Addend(kind, d2), Addend(kind, Sum(d1, d2)), Modulus(|s|));
    AddendValues(kind, d1, d2);
    if Value(Patch(t, kind, d2).0) == Value(u) {
      SameField(Patch(t, kind, d2).0, u);
    }
  }

  lemma NothingToAdd(kind: nat)
    ensures Addend(kind, 0) == 0
  {
  }

  /** Patching by zero changes nothing, also when it fails. */
  lemma PatchByZero(s: seq<byte>, kind: nat)
    requires |s| == Width(kind)
    ensures Patch(s, kind, 0).0 == s
  {
    if IsAdditive(kind) {
      hide *;
      SiteAdds(s, kind, 0);
      NothingToAdd(kind);
      ValueBound(s);
      SmallMod(Value(s), Modulus(|s|));
      SameField(Patch(s, kind, 0).0, s);
    } else if kind == THUMB_MOV32 {
      ThumbByZero(s);
    }
  }

  lemma ThumbByZero(s: seq<byte>)
    requires |s| == 8
    ensures Patch(s, THUMB_MOV32, 0).0 == s
  {
    hide IsMovw, Imm16, WithImm, MovwSum, HighDelta, Get, Set, AddToMovt;
    var movw := U32(s, 0);
    NothingToCarryOver(movw);
    WordBound(s);
    Rebuilt(movw);
    SetOwn(s, 0);
  }

  lemma NothingToCarryOver(movw: nat)
    ensures MovwSum(movw, 0) == Imm16(movw) && HighDelta(Imm16(movw), 0) == 0
  {
    hide Imm16;
  }

  lemma WordBound(s: seq<byte>)
    requires |s| >= 4
    ensures U32(s, 0) < 0x1_0000_0000
  {
    hide Value;
    ValueBound(s[0..4]);
    Moduli();
  }

  lemma SetOwn(s: seq<byte>, p: nat)
    requires p + 4 <= |s|
    ensures Set(s, p, 4, U32(s, p)) == s
  {
    hide Le, Value;
    LeOfValue(s[p..p + 4]);
    assert s == s[..p] + s[p..p + 4] + s[p + 4..];
  }

  // ----- Whole images

  /** A relocation that succeeds patches every site. */
  lemma RelocatedSites(m: seq<byte>, directory: Directory, blocks: seq<Block>, delta: Delta)
    requires Relocatable(m, directory, blocks) && Relocate(m, directory, delta).1 == Done(true)
    ensures var m' := Relocate(m, directory, delta).0; var fs := TableFixups(blocks);
      && AllWithin(m, fs) && AllWithin(m', fs) && AllPatchable(m, fs, delta)
      && Patched(m, m', fs, delta) && Relocatable(m', directory, blocks)
  {
    hide Relocate, Relocatable, Patched, AllPatchable;
    SitesWithin(m, directory, blocks);
    RelocationPatchesSites(m, directory, blocks, delta);
  }

  /**
   Relocating by d1 and then by d2, if both succeed, is relocating by d1 + d2: exactly when the table has no HIGH
   site or the low halves of the two differences do not carry.
  */
  lemma RelocationIsAdditive(m: seq<byte>, directory: Directory, blocks: seq<Block>, d1: Delta, d2: Delta)
    requires Relocatable(m, directory, blocks) && Relocate(m, directory, d1).1 == Done(true)
    requires Relocate(Relocate(m, directory, d1).0, directory, d2).1 == Done(true)
    ensures Relocate(m, directory, Sum(d1, d2)).1 == Done(true)
    ensures Relocate(Relocate(m, directory, d1).0, directory, d2).0 == Relocate(m, directory, Sum(d1, d2)).0
      <==> !HasHigh(TableFixups(blocks)) || NoCarry(d1, d2)
  {
    hide Relocate, Relocatable, Patch, TableFixups, NoCarry, Sum;
    var fs := TableFixups(blocks);
    RelocatedSites(m, directory, blocks, d1);
    var m1 := Relocate(m, directory, d1).0;
    RelocatedSites(m1, directory, blocks, d2);
    var m2 := Relocate(m1, directory, d2).0;
    forall i | 0 <= i < |fs|
      ensures Patch(SiteBytes(m, fs[i]), fs[i].kind, Sum(d1, d2)).1.Fine?
      ensures SiteBytes(m2, fs[i]) == Patch(SiteBytes(m, fs[i]), fs[i].kind, Sum(d1, d2)).0
        <==> fs[i].kind != HIGH || NoCarry(d1, d2)
    {
      PatchTwice(SiteBytes(m, fs[i]), fs[i].kind, d1, d2);
    }
    RelocationPatchesSites(m, directory, blocks, Sum(d1, d2));
    var m3 := Relocate(m, directory, Sum(d1, d2)).0;
    if !HasHigh(fs) || NoCarry(d1, d2) {
      PatchedIsUnique(m, m2, m3, fs, Sum(d1, d2));
    } else {
      var i :| 0 <= i < |fs| && fs[i].kind == HIGH;
      assert SiteBytes(m2, fs[i]) != SiteBytes(m3, fs[i]);
    }
  }

  /** Relocating by zero changes nothing, also when it fails. */
  lemma RelocatingByZero(m: seq<byte>, directory: Directory, blocks: seq<Block>)
    requires Relocatable(m, directory, blocks)
    ensures Relocate(m, directory, 0).0 == m
  {
    hide Walk, TableFixups, ApplyAll, TableAt;
    WalkIsList(m, directory.virtualAddress, blocks, 0);
    ApplyingByZero(m, TableFixups(blocks));
  }

  lemma {:induction false} ApplyingByZero(m: seq<byte>, fs: seq<Fixup>)
    requires AllWithin(m, fs)
    ensures ApplyAll(m, fs, 0).0 == m
    decreases |fs|
  {
    hide FixUp, Patch;
    if fs == [] {
    } else {
      var f := fs[0];
      FixUpIsLocal(m, f, 0);
      PatchByZero(SiteBytes(m, f), f.kind);
      SpliceOwn(m, f);
      ApplyingByZero(m, fs[1..]);
    }
  }

  lemma SpliceOwn(m: seq<byte>, f: Fixup)
    requires Within(m, f)
    ensures Splice(m, f.site, SiteBytes(m, f)) == m
  {
  }

  /**
   Relocating back, if it succeeds, restores the image byte for byte: exactly when the table has no HIGH site or the
   difference is a multiple of 64 KiB.
  */
  lemma RelocationIsUndone(m: seq<byte>, directory: Directory, blocks: seq<Block>, d: Delta)
    requires Relocatable(m, directory, blocks) && Relocate(m, directory, d).1 == Done(true)
    requires Relocate(Relocate(m, directory, d).0, directory, Negated(d)).1 == Done(true)
    ensures Relocate(Relocate(m, directory, d).0, directory, Negated(d)).0 == m
      <==> !HasHigh(TableFixups(blocks)) || d % 0x1_0000 == 0
  {
    hide Relocate, Relocatable, TableFixups;
    RelocationIsAdditive(m, directory, blocks, d, Negated(d));
    RelocatingByZero(m, directory, blocks);
    Cancelling(d);
  }

  lemma Cancelling(d: Delta)
    ensures Sum(d, Negated(d)) == 0
    ensures NoCarry(d, Negated(d)) <==> d % 0x1_0000 == 0
  {
  }

  predicate HasThumb(fs: seq<Fixup>) {
    exists i | 0 <= i < |fs| :: fs[i].kind == THUMB_MOV32
  }

  /**
   A relocation that succeeded can be taken back exactly when the table has no Thumb site or the difference leaves
   the low 32 bits alone: adding what is missing to 2^32 never fits.
  */
  lemma CanBeTakenBack(m: seq<byte>, directory: Directory, blocks: seq<Block>, d: Delta)
    requires Relocatable(m, directory, blocks) && Relocate(m, directory, d).1 == Done(true)
    ensures Relocate(Relocate(m, directory, d).0, directory, Negated(d)).1 == Done(true)
      <==> !HasThumb(TableFixups(blocks)) || Delta32(d) == 0
  {
    hide Relocate, Relocatable, Patch, TableFixups, Delta32, Negated;
    var fs := TableFixups(blocks);
    RelocatedSites(m, directory, blocks, d);
    var m1 := Relocate(m, directory, d).0;
    forall i | 0 <= i < |fs|
      ensures Patch(SiteBytes(m1, fs[i]), fs[i].kind, Negated(d)).1.Fine?
        <==> fs[i].kind != THUMB_MOV32 || Delta32(d) == 0
    {
      SiteTakenBack(SiteBytes(m, fs[i]), fs[i].kind, d);
    }
    RelocationPatchesSites(m1, directory, blocks, Negated(d));
    if HasThumb(fs) {
      var i :| 0 <= i < |fs| && fs[i].kind == THUMB_MOV32;
      assert Patch(SiteBytes(m1, fs[i]), fs[i].kind, Negated(d)).1.Fine? <==> Delta32(d) == 0;
    }
  }

  lemma SiteTakenBack(s: seq<byte>, kind: nat, d: Delta)
    requires |s| == Width(kind) && Patch(s, kind, d).1.Fine?
    ensures Patch(Patch(s, kind, d).0, kind, Negated(d)).1.Fine? <==> kind != THUMB_MOV32 || Delta32(d) == 0
  {
    hide Negated, Delta32;
    if kind == THUMB_MOV32 {
      ThumbTakenBack(s, d);
    }
  }

  lemma ThumbTakenBack(s: seq<byte>, d: Delta)
    requires |s| == 8 && Patch(s, THUMB_MOV32, d).1.Fine?
    ensures Patch(Patch(s, THUMB_MOV32, d).0, THUMB_MOV32, Negated(d)).1.Fine? <==> Delta32(d) == 0
  {
    hide IsMovw, IsMovt, Imm16, Kept, FixUp, U32, Negated;
    ThumbFixupAdds(s, d);
    ThumbFixupAdds(Patch(s, THUMB_MOV32, d).0, Negated(d));
    Complements(d);
  }

  lemma Complements(d: Delta)
    ensures Delta32(d) == 0 ==> Delta32(Negated(d)) == 0
    ensures Delta32(d) != 0 ==> Delta32(d) + Delta32(Negated(d)) == 0x1_0000_0000
  {
  }
}
