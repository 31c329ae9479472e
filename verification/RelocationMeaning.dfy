/** What a walk over the relocation table means for the image, site by site. */
module RelocationMeaning {
  import opened Numbers
  import opened Bytes
  import opened Relocation

  datatype Fixup = Fixup(site: nat, kind: nat)

  /** Number of bytes a fixup may look at or change. */
  function Width(kind: nat): nat {
    if kind == THUMB_MOV32 then 8 else FieldWidth(kind)
  }

  predicate Within(m: seq<byte>, f: Fixup) { f.site + Width(f.kind) <= |m| }

  function SiteBytes(m: seq<byte>, f: Fixup): (s: seq<byte>)
    requires Within(m, f)
  {
    m[f.site..f.site + Width(f.kind)]
  }

  predicate Covers(f: Fixup, p: int) { f.site <= p < f.site + Width(f.kind) }

  predicate Apart(f: Fixup, g: Fixup) {
    f.site + Width(f.kind) <= g.site || g.site + Width(g.kind) <= f.site || Width(f.kind) == 0 || Width(g.kind) == 0
  }

  /** The patched bytes of one site, and whether patching them succeeds. */
  function Patch(s: seq<byte>, kind: nat, delta: Delta): (seq<byte>, Verdict) {
    FixUp(s, 0, kind, delta)
  }

  // ----- A fixup is local to its site

  lemma FixUpIsLocal(m: seq<byte>, f: Fixup, delta: Delta)
    requires Within(m, f)
    ensures var (s, v) := Patch(SiteBytes(m, f), f.kind, delta);
      FixUp(m, f.site, f.kind, delta) == (Splice(m, f.site, s), v)
  {
    if IsAdditive(f.kind) {
      var w := FieldWidth(f.kind);
      var s := SiteBytes(m, f);
      assert s[0..w] == s;
      SetInWindow(m, f.site, w, 0, w, Get(m, f.site, w) + Addend(f.kind, delta));
    } else if f.kind == THUMB_MOV32 {
      ThumbIsLocal(m, f.site, delta);
    } else {
      assert Splice(m, f.site, m[f.site..f.site]) == m;
    }
  }

  lemma ThumbIsLocal(m: seq<byte>, p: nat, delta: Delta)
    requires p + 8 <= |m|
    ensures var (s, v) := FixUpThumb(m[p..p + 8], 0, delta);
      FixUpThumb(m, p, delta) == (Splice(m, p, s), v)
  {
    hide IsMovw, MovwSum, HighDelta, WithImm, Imm16, AddToMovt, Get, Set;
    var s := m[p..p + 8];
    assert Splice(m, p, s) == m;
    GetInWindow(m, p, 8, 0, 4);
    var movw := U32(m, p);
    var word := WithImm(movw, MovwSum(movw, delta));
    SetInWindow(m, p, 8, 0, 4, word);
    MovtIsLocal(m, p, Set(s, 0, 4, word), HighDelta(MovwSum(movw, delta), delta));
  }

  lemma MovtIsLocal(m: seq<byte>, p: nat, s: seq<byte>, hi: nat)
    requires p + 8 <= |m| && |s| == 8
    ensures var (s', v) := AddToMovt(s, 4, hi);
      AddToMovt(Splice(m, p, s), p + 4, hi) == (Splice(m, p, s'), v)
  {
    hide IsMovt, MovtSum, WithImm, Imm16, Get, Set;
    var m1 := Splice(m, p, s);
    SpliceAt(m, p, s);
    GetInWindow(m1, p, 8, 4, 4);
    var word := WithImm(U32(s, 4), MovtSum(U32(s, 4), hi));
    SetInWindow(m1, p, 8, 4, 4, word);
    var t := Set(s, 4, 4, word);
    assert Splice(m1, p, t) == Splice(m, p, t);
  }

  // ----- Lists of fixups

  function ApplyAll(m: seq<byte>, fs: seq<Fixup>, delta: Delta): (r: (seq<byte>, Verdict))
    ensures |r.0| == |m|
    decreases |fs|
  {
    if fs == [] then (m, Fine) else
    var (m1, v) := FixUp(m, fs[0].site, fs[0].kind, delta);
    if v.Fine? then ApplyAll(m1, fs[1..], delta) else (m1, v)
  }

  predicate AllWithin(m: seq<byte>, fs: seq<Fixup>) {
    forall i | 0 <= i < |fs| :: Within(m, fs[i])
  }

  predicate PairwiseApart(fs: seq<Fixup>) {
    forall i, j | 0 <= i < j < |fs| :: Apart(fs[i], fs[j])
  }

  predicate Covered(fs: seq<Fixup>, p: int) {
    exists i | 0 <= i < |fs| :: Covers(fs[i], p)
  }

  /** m' is m with every site patched on its own and every other byte kept. */
  ghost predicate Patched(m: seq<byte>, m': seq<byte>, fs: seq<Fixup>, delta: Delta)
    requires AllWithin(m, fs)
  {
    && |m'| == |m|
    && (forall i | 0 <= i < |fs| :: SiteBytes(m', fs[i]) == Patch(SiteBytes(m, fs[i]), fs[i].kind, delta).0)
    && (forall p | 0 <= p < |m| && !Covered(fs, p) :: m'[p] == m[p])
  }

  /** Every site can be patched. */
  predicate AllPatchable(m: seq<byte>, fs: seq<Fixup>, delta: Delta)
    requires AllWithin(m, fs)
  {
    forall i | 0 <= i < |fs| :: Patch(SiteBytes(m, fs[i]), fs[i].kind, delta).1.Fine?
  }

  lemma OthersKept(m: seq<byte>, f: Fixup, s: seq<byte>, g: Fixup)
    requires Within(m, f) && Within(m, g) && |s| == Width(f.kind) && Apart(f, g)
    ensures SiteBytes(Splice(m, f.site, s), g) == SiteBytes(m, g)
  {
    SpliceAt(m, f.site, s);
  }

  /**
   Sites that do not overlap are patched independently of one another and of their order, and the walk
   succeeds exactly when every site can be patched.
  */
  lemma {:induction false} SitesAreIndependent(m: seq<byte>, fs: seq<Fixup>, delta: Delta)
    requires AllWithin(m, fs) && PairwiseApart(fs)
    ensures var (m', v) := ApplyAll(m, fs, delta);
      && (v.Fine? <==> AllPatchable(m, fs, delta))
      && (v.Fine? ==> Patched(m, m', fs, delta))
    decreases |fs|
  {
    hide FixUp;
    if fs == [] {
    } else {
      var f, rest := fs[0], fs[1..];
      FixUpIsLocal(m, f, delta);
      var (s, v) := Patch(SiteBytes(m, f), f.kind, delta);
      var m1 := Splice(m, f.site, s);
      SpliceAt(m, f.site, s);
      forall i | 0 <= i < |rest|
        ensures SiteBytes(m1, rest[i]) == SiteBytes(m, rest[i])
      {
        assert Apart(fs[0], fs[i + 1]);
        OthersKept(m, f, s, rest[i]);
      }
      assert PairwiseApart(rest) by {
        forall i, j | 0 <= i < j < |rest| ensures Apart(rest[i], rest[j]) {
          assert Apart(fs[i + 1], fs[j + 1]);
        }
      }
      if v.Fine? {
        SitesAreIndependent(m1, rest, delta);
        PatchabilityOfRest(m, m1, fs, delta);
        if AllPatchable(m1, rest, delta) {
          PatchedCons(m, m1, ApplyAll(m1, rest, delta).0, fs, delta);
        }
      }
    }
  }

  lemma PatchabilityOfRest(m: seq<byte>, m1: seq<byte>, fs: seq<Fixup>, delta: Delta)
    requires fs != [] && |m1| == |m| && AllWithin(m, fs)
    requires Patch(SiteBytes(m, fs[0]), fs[0].kind, delta).1.Fine?
    requires forall i | 0 <= i < |fs[1..]| :: SiteBytes(m1, fs[1..][i]) == SiteBytes(m, fs[1..][i])
    ensures AllWithin(m1, fs[1..])
    ensures AllPatchable(m, fs, delta) <==> AllPatchable(m1, fs[1..], delta)
  {
    hide FixUp, SiteBytes, Patch;
    var rest := fs[1..];
    assert forall i | 0 <= i < |rest| :: rest[i] == fs[i + 1];
    if AllPatchable(m1, rest, delta) {
      forall i | 0 <= i < |fs| ensures Patch(SiteBytes(m, fs[i]), fs[i].kind, delta).1.Fine? {
        assert i > 0 ==> fs[i] == rest[i - 1];
      }
    }
    if AllPatchable(m, fs, delta) {
      forall i | 0 <= i < |rest| ensures Patch(SiteBytes(m1, rest[i]), rest[i].kind, delta).1.Fine? {
        assert Patch(SiteBytes(m, fs[i + 1]), fs[i + 1].kind, delta).1.Fine?;
      }
    }
  }

  lemma PatchedCons(m: seq<byte>, m1: seq<byte>, m': seq<byte>, fs: seq<Fixup>, delta: Delta)
    requires fs != [] && AllWithin(m, fs) && PairwiseApart(fs)
    requires m1 == Splice(m, fs[0].site, Patch(SiteBytes(m, fs[0]), fs[0].kind, delta).0)
    requires AllWithin(m1, fs[1..]) && Patched(m1, m', fs[1..], delta)
    requires forall i | 0 <= i < |fs[1..]| :: SiteBytes(m1, fs[1..][i]) == SiteBytes(m, fs[1..][i])
    ensures Patched(m, m', fs, delta)
  {
    hide FixUp;
    var f, rest := fs[0], fs[1..];
    var s := Patch(SiteBytes(m, f), f.kind, delta).0;
    SpliceAt(m, f.site, s);
    forall p | Covers(f, p) ensures !Covered(rest, p) {
      forall i | 0 <= i < |rest| ensures !Covers(rest[i], p) {
        assert Apart(fs[0], fs[i + 1]);
      }
    }
    forall p | 0 <= p < |m| && !Covered(fs, p) ensures m'[p] == m[p] {
      forall i | 0 <= i < |rest| ensures !Covers(rest[i], p) {
        assert !Covers(fs[i + 1], p);
      }
      assert !Covered(rest, p);
      assert !Covers(fs[0], p);
    }
    forall i | 0 <= i < |fs| ensures SiteBytes(m', fs[i]) == Patch(SiteBytes(m, fs[i]), fs[i].kind, delta).0 {
      if i == 0 {
        assert SiteBytes(m', f) == SiteBytes(m1, f) by {
          forall p | Covers(f, p) ensures m'[p] == m1[p] {
            assert !Covered(rest, p);
          }
        }
      } else {
        assert fs[i] == rest[i - 1];
      }
    }
  }

  /** The patched image is determined by the sites. */
  lemma PatchedIsUnique(m: seq<byte>, a: seq<byte>, b: seq<byte>, fs: seq<Fixup>, delta: Delta)
    requires AllWithin(m, fs) && Patched(m, a, fs, delta) && Patched(m, b, fs, delta)
    ensures a == b
  {
    hide FixUp, Patch;
    forall p | 0 <= p < |m| ensures a[p] == b[p] {
      if Covered(fs, p) {
        var i :| 0 <= i < |fs| && Covers(fs[i], p);
        assert SiteBytes(a, fs[i])[p - fs[i].site] == a[p];
        assert SiteBytes(b, fs[i])[p - fs[i].site] == b[p];
      }
    }
  }

  // ----- The table in memory

  datatype Block = Block(va: nat, size: nat, entries: seq<nat>)

  /** m holds the zero-terminated table of the given blocks at offset pos. */
  ghost predicate TableAt(m: seq<byte>, pos: nat, blocks: seq<Block>)
    decreases |blocks|
  {
    if blocks == [] then pos + 4 <= |m| && U32(m, pos) == 0
    else BlockAt(m, pos, blocks[0]) && TableAt(m, pos + blocks[0].size, blocks[1..])
  }

  ghost predicate BlockAt(m: seq<byte>, pos: nat, b: Block) {
    && 8 <= b.size && pos + b.size <= |m|
    && b.va != 0 && U32(m, pos) == b.va && U32(m, pos + 4) == b.size
    && |b.entries| == (b.size - 8) / 2
    && forall i | 0 <= i < |b.entries| :: U16(m, pos + 8 + 2 * i) == b.entries[i]
  }

  /** Offset of the first byte after the table. */
  function TableEnd(pos: nat, blocks: seq<Block>): (end: nat)
    ensures pos + 4 <= end
    decreases |blocks|
  {
    if blocks == [] then pos + 4 else TableEnd(pos + blocks[0].size, blocks[1..])
  }

  function BlockFixups(b: Block): (fs: seq<Fixup>)
    ensures |fs| == |b.entries|
  {
    EntryFixups(b.va, b.entries)
  }

  function EntryFixups(va: nat, entries: seq<nat>): (fs: seq<Fixup>)
    ensures |fs| == |entries|
    ensures forall i | 0 <= i < |entries| :: fs[i] == Fixup(va + Offset(entries[i]), Kind(entries[i]))
  {
    seq(|entries|, i requires 0 <= i < |entries| => Fixup(va + Offset(entries[i]), Kind(entries[i])))
  }

  function TableFixups(blocks: seq<Block>): seq<Fixup>
    decreases |blocks|
  {
    if blocks == [] then [] else BlockFixups(blocks[0]) + TableFixups(blocks[1..])
  }

  /** Where block j of the table begins: the blocks before it lie end to end. */
  function BlockStart(pos: nat, blocks: seq<Block>, j: nat): nat
    requires j <= |blocks|
    decreases j
  {
    if j == 0 then pos else BlockStart(pos + blocks[0].size, blocks[1..], j - 1)
  }

  /**
   f is entry i of the block at q, a 16-bit word behind the 8 bytes of the header: its upper 4 bits are the kind, its
   lower 12 bits are added to the address of the block.
  */
  predicate IsEntry(m: seq<byte>, q: nat, i: nat, f: Fixup) {
    && q + 10 + 2 * i <= |m|
    && var entry := U16(m, q + 8 + 2 * i);
    f.site == U32(m, q) + entry % 0x1000 && f.kind == entry / 0x1000
  }

  lemma {:induction false} BlockIsThere(m: seq<byte>, pos: nat, blocks: seq<Block>, j: nat)
    requires TableAt(m, pos, blocks) && j < |blocks|
    ensures BlockAt(m, BlockStart(pos, blocks, j), blocks[j])
    ensures BlockStart(pos, blocks, j + 1) == BlockStart(pos, blocks, j) + blocks[j].size
    decreases j
  {
    hide BlockAt;
    if j == 0 {
      assert BlockStart(pos + blocks[0].size, blocks[1..], 0) == pos + blocks[0].size;
    } else {
      BlockIsThere(m, pos + blocks[0].size, blocks[1..], j - 1);
    }
  }

  lemma {:induction false} BlockOffset(blocks: seq<Block>, j: nat, i: nat) returns (k: nat)
    requires j < |blocks| && i < |blocks[j].entries|
    ensures k < |TableFixups(blocks)| && TableFixups(blocks)[k] == BlockFixups(blocks[j])[i]
    decreases j
  {
    hide BlockFixups;
    if j == 0 {
      k := i;
    } else {
      k := BlockOffset(blocks[1..], j - 1, i);
      k := |BlockFixups(blocks[0])| + k;
    }
  }

  lemma {:induction false} OffsetBlock(blocks: seq<Block>, k: nat) returns (j: nat, i: nat)
    requires k < |TableFixups(blocks)|
    ensures j < |blocks| && i < |blocks[j].entries| && TableFixups(blocks)[k] == BlockFixups(blocks[j])[i]
    decreases |blocks|
  {
    hide BlockFixups;
    var n := |BlockFixups(blocks[0])|;
    if k < n {
      j, i := 0, k;
    } else {
      j, i := OffsetBlock(blocks[1..], k - n);
      j := j + 1;
    }
  }

  lemma EntryAt(m: seq<byte>, q: nat, b: Block, i: nat)
    requires BlockAt(m, q, b)
    ensures i < |b.entries| <==> 10 + 2 * i <= b.size
    ensures i < |b.entries| ==> IsEntry(m, q, i, BlockFixups(b)[i])
  {
    hide U16, U32;
  }

  /** Every entry of every block is among the fixups of the table. */
  lemma EntriesAreFixups(m: seq<byte>, pos: nat, blocks: seq<Block>, j: nat, i: nat) returns (k: nat)
    requires TableAt(m, pos, blocks) && j < |blocks| && 10 + 2 * i <= blocks[j].size
    ensures k < |TableFixups(blocks)|
    ensures IsEntry(m, BlockStart(pos, blocks, j), i, TableFixups(blocks)[k])
  {
    hide BlockAt, IsEntry, TableFixups, BlockFixups, BlockStart, TableAt;
    BlockIsThere(m, pos, blocks, j);
    EntryAt(m, BlockStart(pos, blocks, j), blocks[j], i);
    k := BlockOffset(blocks, j, i);
  }

  /** Every fixup of the table is such an entry. */
  lemma FixupsAreEntries(m: seq<byte>, pos: nat, blocks: seq<Block>, k: nat) returns (j: nat, i: nat)
    requires TableAt(m, pos, blocks) && k < |TableFixups(blocks)|
    ensures j < |blocks| && 10 + 2 * i <= blocks[j].size
    ensures IsEntry(m, BlockStart(pos, blocks, j), i, TableFixups(blocks)[k])
  {
    hide BlockAt, IsEntry, TableFixups, BlockFixups, BlockStart, TableAt;
    j, i := OffsetBlock(blocks, k);
    BlockIsThere(m, pos, blocks, j);
    EntryAt(m, BlockStart(pos, blocks, j), blocks[j], i);
  }

  predicate Outside(f: Fixup, lo: nat, hi: nat) {
    f.site + Width(f.kind) <= lo || hi <= f.site || Width(f.kind) == 0
  }

  predicate AllOutside(fs: seq<Fixup>, lo: nat, hi: nat) {
    forall i | 0 <= i < |fs| :: Outside(fs[i], lo, hi)
  }

  lemma {:induction false} SameTable(m: seq<byte>, m': seq<byte>, pos: nat, blocks: seq<Block>)
    requires TableAt(m, pos, blocks) && Same(m, m', pos, TableEnd(pos, blocks))
    ensures TableAt(m', pos, blocks)
    decreases |blocks|
  {
    var end := TableEnd(pos, blocks);
    if blocks == [] {
      SameFields(m, m', pos, end, pos, 4);
    } else {
      var next := pos + blocks[0].size;
      SamePart(m, m', pos, end, next, end);
      SameTable(m, m', next, blocks[1..]);
      SamePart(m, m', pos, end, pos, next);
      SameBlock(m, m', pos, blocks[0]);
    }
  }

  lemma SameBlock(m: seq<byte>, m': seq<byte>, pos: nat, b: Block)
    requires BlockAt(m, pos, b) && Same(m, m', pos, pos + b.size)
    ensures BlockAt(m', pos, b)
  {
    hide Get;
    SameFields(m, m', pos, pos + b.size, pos, 4);
    SameFields(m, m', pos, pos + b.size, pos + 4, 4);
    forall i | 0 <= i < |b.entries| ensures U16(m', pos + BLOCK_HEADER + 2 * i) == b.entries[i] {
      SameFields(m, m', pos, pos + b.size, pos + BLOCK_HEADER + 2 * i, 2);
    }
  }

  lemma FixUpKeeps(m: seq<byte>, f: Fixup, delta: Delta, lo: nat, hi: nat)
    requires Within(m, f) && Outside(f, lo, hi) && lo <= hi <= |m|
    ensures Same(m, FixUp(m, f.site, f.kind, delta).0, lo, hi)
  {
    hide FixUp;
    FixUpIsLocal(m, f, delta);
    SpliceAt(m, f.site, Patch(SiteBytes(m, f), f.kind, delta).0);
  }

  lemma {:induction false} ApplyAllKeeps(m: seq<byte>, fs: seq<Fixup>, delta: Delta, lo: nat, hi: nat)
    requires AllWithin(m, fs) && AllOutside(fs, lo, hi) && lo <= hi <= |m|
    ensures Same(m, ApplyAll(m, fs, delta).0, lo, hi)
    decreases |fs|
  {
    hide FixUp;
    if fs == [] {
    } else {
      FixUpKeeps(m, fs[0], delta, lo, hi);
      ApplyAllKeeps(FixUp(m, fs[0].site, fs[0].kind, delta).0, fs[1..], delta, lo, hi);
    }
  }

  lemma {:induction false} ApplyAppend(m: seq<byte>, a: seq<Fixup>, b: seq<Fixup>, delta: Delta)
    ensures var (m1, v) := ApplyAll(m, a, delta);
      ApplyAll(m, a + b, delta) == if v.Fine? then ApplyAll(m1, b, delta) else (m1, v)
    decreases |a|
  {
    hide FixUp;
    if a == [] {
      assert a + b == b;
    } else {
      assert (a + b)[1..] == a[1..] + b;
      ApplyAppend(FixUp(m, a[0].site, a[0].kind, delta).0, a[1..], b, delta);
    }
  }

  /** The loop over one block applies the fixups its entries list, as long as they stay off the block. */
  lemma {:induction false} BlockIsList(m: seq<byte>, pos: nat, b: Block, i: nat, delta: Delta)
    requires BlockAt(m, pos, b) && i <= |b.entries|
    requires AllWithin(m, BlockFixups(b)) && AllOutside(BlockFixups(b), pos, pos + b.size)
    ensures Entries(m, pos, b.va, i, |b.entries|, delta) == ApplyAll(m, BlockFixups(b)[i..], delta)
    decreases |b.entries| - i
  {
    hide FixUp, U16, U32;
    if i == |b.entries| {
    } else {
      var fs := BlockFixups(b);
      assert fs[i..][0] == fs[i] && fs[i..][1..] == fs[i + 1..];
      FixUpKeeps(m, fs[i], delta, pos, pos + b.size);
      var m1 := FixUp(m, fs[i].site, fs[i].kind, delta).0;
      SameBlock(m, m1, pos, b);
      BlockIsList(m1, pos, b, i + 1, delta);
    }
  }

  /** No fixup touches the table that lists it. */
  ghost predicate TableApart(m: seq<byte>, pos: nat, blocks: seq<Block>) {
    && TableAt(m, pos, blocks)
    && AllWithin(m, TableFixups(blocks))
    && AllOutside(TableFixups(blocks), pos, TableEnd(pos, blocks))
  }

  lemma {:induction false} TableEndFits(m: seq<byte>, pos: nat, blocks: seq<Block>)
    requires TableAt(m, pos, blocks)
    ensures TableEnd(pos, blocks) <= |m|
    decreases |blocks|
  {
    if blocks == [] {
    } else {
      TableEndFits(m, pos + blocks[0].size, blocks[1..]);
    }
  }

  lemma SplitApart(m: seq<byte>, pos: nat, blocks: seq<Block>)
    requires blocks != [] && TableApart(m, pos, blocks)
    ensures var fs := BlockFixups(blocks[0]); var end := TableEnd(pos, blocks);
      && pos + blocks[0].size <= end <= |m|
      && AllWithin(m, fs) && AllOutside(fs, pos, end) && AllOutside(fs, pos, pos + blocks[0].size)
      && AllWithin(m, TableFixups(blocks[1..]))
      && AllOutside(TableFixups(blocks[1..]), pos + blocks[0].size, end)
  {
    hide BlockFixups;
    var fs, rest, all := BlockFixups(blocks[0]), TableFixups(blocks[1..]), TableFixups(blocks);
    assert all == fs + rest;
    assert forall i | 0 <= i < |fs| :: fs[i] == all[i];
    assert forall i | 0 <= i < |rest| :: rest[i] == all[|fs| + i];
    TableEndFits(m, pos, blocks);
  }

  lemma WithinSame(m: seq<byte>, m': seq<byte>, fs: seq<Fixup>)
    requires |m'| == |m| && AllWithin(m, fs)
    ensures AllWithin(m', fs)
  {
  }

  /** The walk applies the listed fixups in order. */
  lemma {:induction false} WalkIsList(m: seq<byte>, pos: nat, blocks: seq<Block>, delta: Delta)
    requires TableApart(m, pos, blocks)
    ensures Walk(m, pos, delta) == ApplyAll(m, TableFixups(blocks), delta)
    decreases |blocks|
  {
    hide FixUp, U16, U32, Entries, AllWithin, AllOutside;
    if blocks == [] {
    } else {
      hide ApplyAll;
      var b, next, end := blocks[0], pos + blocks[0].size, TableEnd(pos, blocks);
      var fs := BlockFixups(b);
      SplitApart(m, pos, blocks);
      assert fs[0..] == fs;
      BlockIsList(m, pos, b, 0, delta);
      var m1 := ApplyAll(m, fs, delta).0;
      ApplyAllKeeps(m, fs, delta, pos, end);
      SamePart(m, m1, pos, end, pos, next);
      SamePart(m, m1, pos, end, next, end);
      SameBlock(m, m1, pos, b);
      SameTable(m, m1, next, blocks[1..]);
      WithinSame(m, m1, TableFixups(blocks[1..]));
      WalkIsList(m1, next, blocks[1..], delta);
      ApplyAppend(m, fs, TableFixups(blocks[1..]), delta);
    }
  }

  // ----- Relocation of an image with a well-formed table

  /**
   The directory of m points to a zero-terminated table of blocks of at least 8 bytes, and the sites it
   lists lie in the image, apart from one another and from the table.
  */
  ghost predicate Relocatable(m: seq<byte>, directory: Directory, blocks: seq<Block>) {
    && directory.size != 0
    && TableApart(m, directory.virtualAddress, blocks)
    && PairwiseApart(TableFixups(blocks))
  }

  lemma SitesWithin(m: seq<byte>, directory: Directory, blocks: seq<Block>)
    requires Relocatable(m, directory, blocks)
    ensures AllWithin(m, TableFixups(blocks))
  {
  }

  /**
   Relocation patches every listed site on its own and keeps every other byte, the table included. It
   succeeds exactly when every site can be patched.
  */
  lemma RelocationPatchesSites(m: seq<byte>, directory: Directory, blocks: seq<Block>, delta: Delta)
    requires Relocatable(m, directory, blocks)
    ensures var (m', r) := Relocate(m, directory, delta);
      && (r == Done(true) <==> AllPatchable(m, TableFixups(blocks), delta))
      && (r == Done(true) ==> Patched(m, m', TableFixups(blocks), delta) && Relocatable(m', directory, blocks))
  {
    hide FixUp, Walk, Patched, TableAt;
    var pos, fs := directory.virtualAddress, TableFixups(blocks);
    WalkIsList(m, pos, blocks, delta);
    SitesAreIndependent(m, fs, delta);
    TableEndFits(m, pos, blocks);
    ApplyAllKeeps(m, fs, delta, pos, TableEnd(pos, blocks));
    SameTable(m, ApplyAll(m, fs, delta).0, pos, blocks);
  }

  lemma SiteKept(m: seq<byte>, m1: seq<byte>, fs: seq<Fixup>, f: Fixup, delta: Delta)
    requires AllWithin(m, fs) && Patched(m, m1, fs, delta) && Within(m, f)
    requires forall i | 0 <= i < |fs| :: Apart(fs[i], f)
    ensures SiteBytes(m1, f) == SiteBytes(m, f)
  {
    hide FixUp, Patch;
    forall p | Covers(f, p) ensures m1[p] == m[p] {
      forall i | 0 <= i < |fs| ensures !Covers(fs[i], p) {
        assert Apart(fs[i], f);
      }
      assert !Covered(fs, p);
    }
  }

  lemma PatchedSnoc(m: seq<byte>, m1: seq<byte>, fs: seq<Fixup>, f: Fixup, delta: Delta)
    requires AllWithin(m, fs) && Patched(m, m1, fs, delta) && Within(m, f)
    requires forall i | 0 <= i < |fs| :: Apart(fs[i], f)
    ensures AllWithin(m, fs + [f])
    ensures var m' := Splice(m1, f.site, Patch(SiteBytes(m, f), f.kind, delta).0); Patched(m, m', fs + [f], delta)
  {
    hide FixUp;
    var all, s := fs + [f], Patch(SiteBytes(m, f), f.kind, delta).0;
    var m' := Splice(m1, f.site, s);
    SpliceAt(m1, f.site, s);
    forall i | 0 <= i < |all|
      ensures Within(m, all[i]) && SiteBytes(m', all[i]) == Patch(SiteBytes(m, all[i]), all[i].kind, delta).0
    {
      if i < |fs| {
        assert Apart(fs[i], f);
        OthersKept(m1, f, s, fs[i]);
      }
    }
    forall p | 0 <= p < |m| && !Covered(all, p) ensures m'[p] == m[p] {
      assert all[|fs|] == f && !Covers(f, p);
      forall i | 0 <= i < |fs| ensures !Covers(fs[i], p) {
        assert all[i] == fs[i];
      }
    }
  }

  /**
   When site n is the first that cannot be patched, the walk ends there with the verdict of that site. The sites up to
   n have been patched as far as they can be, and every other byte is kept.
  */
  lemma StopsAtFirst(m: seq<byte>, fs: seq<Fixup>, delta: Delta, n: nat)
    requires AllWithin(m, fs) && PairwiseApart(fs) && n < |fs| && AllPatchable(m, fs[..n], delta)
    requires !Patch(SiteBytes(m, fs[n]), fs[n].kind, delta).1.Fine?
    ensures var (m', v) := ApplyAll(m, fs, delta);
      v == Patch(SiteBytes(m, fs[n]), fs[n].kind, delta).1 && Patched(m, m', fs[..n + 1], delta)
  {
    hide FixUp, Patched, SiteBytes, Patch, Apart, AllPatchable;
    var before, f := fs[..n], fs[n];
    assert PairwiseApart(before);
    SitesAreIndependent(m, before, delta);
    var m1 := ApplyAll(m, before, delta).0;
    assert forall i | 0 <= i < n :: Apart(fs[i], f);
    SiteKept(m, m1, before, f, delta);
    FixUpIsLocal(m1, f, delta);
    PatchedSnoc(m, m1, before, f, delta);
    ApplyAppend(m, before, fs[n..], delta);
    assert before + fs[n..] == fs && before + [f] == fs[..n + 1];
  }

  /** The same for a relocation: an entry that cannot be applied ends it with its error, or ends the process. */
  lemma RelocationStops(m: seq<byte>, directory: Directory, blocks: seq<Block>, delta: Delta, n: nat)
    requires Relocatable(m, directory, blocks) && n < |TableFixups(blocks)|
    requires AllPatchable(m, TableFixups(blocks)[..n], delta)
    requires var f := TableFixups(blocks)[n]; !Patch(SiteBytes(m, f), f.kind, delta).1.Fine?
    ensures var f := TableFixups(blocks)[n];
      var (m', r) := Relocate(m, directory, delta);
      && Patched(m, m', TableFixups(blocks)[..n + 1], delta)
      && match Patch(SiteBytes(m, f), f.kind, delta).1
         case Failed(e) => r == Error(e)
         case _ => r == Crash
  {
    hide FixUp, Walk, TableAt, Patched, SiteBytes, Patch, Apart, AllPatchable;
    WalkIsList(m, directory.virtualAddress, blocks, delta);
    StopsAtFirst(m, TableFixups(blocks), delta, n);
  }

  /** A block whose size does not cover its own header ends the process, and so does a header outside the image. */
  lemma BadBlockFaults(m: seq<byte>, pos: nat, delta: Delta)
    requires pos + 4 <= |m| ==> U32(m, pos) != 0 && (pos + 8 <= |m| ==> U32(m, pos + 4) < 8)
    ensures forall size: nat | size > 0 :: Relocate(m, Directory(pos, size), delta) == (m, Crash)
  {
    hide U32;
  }

  /** The kinds of fixups by the numbers the format gives them, with 1 for the upper and 2 for the lower half. */
  lemma FixUpExactly(m: seq<byte>, p: nat, delta: Delta)
    ensures p + 2 <= |m| ==> AddsTo(m, FixUp(m, p, 1, delta), p, 2, delta / 0x1_0000)
    ensures p + 2 <= |m| ==> AddsTo(m, FixUp(m, p, 2, delta), p, 2, delta)
    ensures p + 4 <= |m| ==> AddsTo(m, FixUp(m, p, 3, delta), p, 4, delta)
    ensures p + 8 <= |m| ==> AddsTo(m, FixUp(m, p, 10, delta), p, 8, delta)
    ensures p + 2 > |m| ==> FixUp(m, p, 1, delta) == (m, Fault) && FixUp(m, p, 2, delta) == (m, Fault)
    ensures p + 4 > |m| ==> FixUp(m, p, 3, delta) == (m, Fault)
    ensures p + 8 > |m| ==> FixUp(m, p, 10, delta) == (m, Fault)
    ensures FixUp(m, p, 0, delta) == (m, Fine)
    ensures forall kind: nat | kind !in {0, 1, 2, 3, 7, 10} ::
      FixUp(m, p, kind, delta) == (m, Failed(Unsupported(kind)))
  {
    hide Get, AddToField, Modulus, AddsTo, Delta32;
    Parts(delta);
    Moduli();
    if p + 2 <= |m| {
      FieldAdds(m, p, 2, Addend(1, delta), delta / 0x1_0000);
      FieldAdds(m, p, 2, Addend(2, delta), delta);
    }
    if p + 4 <= |m| {
      FieldAdds(m, p, 4, Addend(3, delta), delta);
    }
    if p + 8 <= |m| {
      FieldAdds(m, p, 8, delta, delta);
    }
  }

  /** A fixup that lands on the size of its own block moves the next block: the size is read again afterwards. */
  lemma SizeIsReadAgain(m: seq<byte>, pos: nat, delta: Delta)
    requires pos + 10 <= |m| && U32(m, pos) != 0 && U32(m, pos + 4) == 10
    requires IsEntry(m, pos, 0, Fixup(pos + 4, 3))
    ensures var (m1, v) := FixUp(m, pos + 4, 3, delta);
      && v == Fine && Agree(m, m1, pos + 4, pos + 8) && U32(m1, pos + 4) == (10 + delta) % 0x1_0000_0000
      && Walk(m, pos, delta) == Walk(m1, pos + (10 + delta) % 0x1_0000_0000, delta)
  {
    hide U16, U32, FixUp;
    FixUpExactly(m, pos + 4, delta);
    var m1 := FixUp(m, pos + 4, 3, delta).0;
    assert Entries(m1, pos, U32(m, pos), 1, 1, delta) == (m1, Fine);
    assert Entries(m, pos, U32(m, pos), 0, 1, delta) == (m1, Fine);
  }

  /** Cutting a part off delta changes nothing in a field of that width. */
  lemma Parts(delta: Delta)
    ensures Delta32(delta) / 0x1_0000 % 0x1_0000 == delta / 0x1_0000 % 0x1_0000
    ensures delta % 0x1_0000 % 0x1_0000 == delta % 0x1_0000
    ensures Delta32(delta) % 0x1_0000_0000 == delta % 0x1_0000_0000
  {
    Tail(delta, 0x1_0000, 0x1_0000);
    QuotientIs(Delta32(delta), 0x1_0000, delta / 0x1_0000 % 0x1_0000, delta % 0x1_0000);
  }

  /** The w-byte field at p has d added, modulo its width, and no other byte has changed. */
  ghost predicate AddsTo(m: seq<byte>, r: (seq<byte>, Verdict), p: nat, w: nat, d: nat)
    requires p + w <= |m|
  {
    r.1 == Fine && Agree(m, r.0, p, p + w) && Increased(m, r.0, p, w, d)
  }

  predicate Increased(m: seq<byte>, m': seq<byte>, p: nat, w: nat, d: nat)
    requires p + w <= |m|
  {
    && |m'| == |m|
    && match w
       case 2 => U16(m', p) == (U16(m, p) + d) % 0x1_0000
       case 4 => U32(m', p) == (U32(m, p) + d) % 0x1_0000_0000
       case 8 => U64(m', p) == (U64(m, p) + d) % 0x1_0000_0000_0000_0000
       case _ => false
  }

  lemma FieldAdds(m: seq<byte>, p: nat, w: nat, addend: nat, d: nat)
    requires p + w <= |m| && w in {2, 4, 8} && addend % Modulus(w) == d % Modulus(w)
    ensures AddsTo(m, (AddToField(m, p, w, addend), Fine), p, w, d)
  {
    hide Value, Modulus, Le;
    Moduli();
    var value: nat := Get(m, p, w);
    SpliceAt(m, p, Le(value + addend, w));
    GetOfSet(m, p, w, value + addend);
    AddSame(value, addend, d, Modulus(w));
  }

  /** What patching one site of an additive kind does to its value. */
  lemma SiteAdds(s: seq<byte>, kind: nat, delta: Delta)
    requires IsAdditive(kind) && |s| == FieldWidth(kind)
    ensures var (s', v) := Patch(s, kind, delta);
      v.Fine? && |s'| == |s| && Value(s') == (Value(s) + Addend(kind, delta)) % Modulus(|s|)
  {
    hide FieldWidth, Addend;
    AddToWhole(s, Addend(kind, delta));
  }

  lemma AddToWhole(s: seq<byte>, d: nat)
    ensures Value(AddToField(s, 0, |s|, d)) == (Value(s) + d) % Modulus(|s|)
  {
    hide Set, Value, Modulus;
    var s' := AddToField(s, 0, |s|, d);
    GetOfSet(s, 0, |s|, Get(s, 0, |s|) + d);
    assert s'[0..|s|] == s' && s[0..|s|] == s;
  }

  /**
   Every site of a relocated image that is listed with kind 1, 2, 3 or 10 holds its old value plus the matching part
   of delta, modulo the width of the field.
  */
  lemma RelocationAddsDelta(m: seq<byte>, directory: Directory, blocks: seq<Block>, delta: Delta, i: nat)
    requires Relocatable(m, directory, blocks) && Relocate(m, directory, delta).1 == Done(true)
    requires i < |TableFixups(blocks)|
    ensures var Fixup(p, kind) := TableFixups(blocks)[i]; var m' := Relocate(m, directory, delta).0;
      && (kind == 1 ==> p + 2 <= |m| && Increased(m, m', p, 2, delta / 0x1_0000))
      && (kind == 2 ==> p + 2 <= |m| && Increased(m, m', p, 2, delta))
      && (kind == 3 ==> p + 4 <= |m| && Increased(m, m', p, 4, delta))
      && (kind == 10 ==> p + 8 <= |m| && Increased(m, m', p, 8, delta))
  {
    hide FixUp, Walk, TableAt, Relocate, Get, TableFixups, TableApart, PairwiseApart, AllPatchable;
    RelocationPatchesSites(m, directory, blocks, delta);
    SitesWithin(m, directory, blocks);
    var f, m' := TableFixups(blocks)[i], Relocate(m, directory, delta).0;
    assert Within(m, f);
    if f.kind == 1 || f.kind == 2 {
      SiteIncreased(m, m', f, delta, 2);
    } else if f.kind == 3 {
      SiteIncreased(m, m', f, delta, 4);
    } else if f.kind == 10 {
      SiteIncreased(m, m', f, delta, 8);
    }
  }

  lemma SiteIncreased(m: seq<byte>, m': seq<byte>, f: Fixup, delta: Delta, w: nat)
    requires |m'| == |m| && Within(m, f) && Width(f.kind) == w
    requires SiteBytes(m', f) == Patch(SiteBytes(m, f), f.kind, delta).0
    requires (f.kind in {1, 2} && w == 2) || (f.kind == 3 && w == 4) || (f.kind == 10 && w == 8)
    ensures Increased(m, m', f.site, w, if f.kind == 1 then delta / 0x1_0000 else delta)
  {
    hide FixUp, Value;
    var s, t := SiteBytes(m, f), SiteBytes(m', f);
    FixUpExactly(s, 0, delta);
    assert s[0..w] == s && t[0..w] == t;
  }

  /**
   Relocation preserves meaning: a site listed with kind 10 (or 3) whose 8 (or 4) bytes hold the address of rva in an
   image at oldBase holds the address of rva in an image at newBase afterwards.
  */
  lemma AddressesFollowTheImage(m: seq<byte>, directory: Directory, blocks: seq<Block>, i: nat,
      oldBase: Delta, newBase: Delta, rva: nat)
    requires var delta := (newBase - oldBase) % 0x1_0000_0000_0000_0000;
      Relocatable(m, directory, blocks) && Relocate(m, directory, delta).1 == Done(true)
    requires i < |TableFixups(blocks)|
    ensures var Fixup(p, kind) := TableFixups(blocks)[i];
      var m' := Relocate(m, directory, (newBase - oldBase) % 0x1_0000_0000_0000_0000).0;
      && (kind == 10 ==>
            && p + 8 <= |m| == |m'|
            && (U64(m, p) == (oldBase + rva) % 0x1_0000_0000_0000_0000 ==>
                  U64(m', p) == (newBase + rva) % 0x1_0000_0000_0000_0000))
      && (kind == 3 ==>
            && p + 4 <= |m| == |m'|
            && (U32(m, p) == (oldBase + rva) % 0x1_0000_0000 ==> U32(m', p) == (newBase + rva) % 0x1_0000_0000))
  {
    hide FixUp, Walk, TableAt, Relocate, Get, Relocatable, TableFixups;
    var delta := (newBase - oldBase) % 0x1_0000_0000_0000_0000;
    RelocationAddsDelta(m, directory, blocks, delta, i);
    assert (oldBase + rva) + (newBase - oldBase) == newBase + rva;
    AddMods(oldBase + rva, newBase - oldBase, 0x1_0000_0000_0000_0000);
    Narrow(delta, newBase - oldBase);
    AddMods(oldBase + rva, newBase - oldBase, 0x1_0000_0000);
    AddMod(oldBase + rva, delta, 0x1_0000_0000);
    AddSame(oldBase + rva, delta, newBase - oldBase, 0x1_0000_0000);
  }

  lemma Narrow(delta: Delta, d: int)
    requires delta == d % 0x1_0000_0000_0000_0000
    ensures delta % 0x1_0000_0000 == d % 0x1_0000_0000
  {
    var q := d / 0x1_0000_0000_0000_0000;
    QuotientIs(d, 0x1_0000_0000, q * 0x1_0000_0000 + delta / 0x1_0000_0000, delta % 0x1_0000_0000);
  }
}
