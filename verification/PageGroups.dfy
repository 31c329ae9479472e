/** What the grouping of sections guarantees for the pages of the image. */
module PageGroups {
  import opened Numbers
  import opened Words
  import opened Os
  import opened PeHeaders
  import opened Sections
  import opened Finalize

  // ----- Truncated addresses are recovered

  lemma ImageOffsetIs(base: Address)
    ensures ImageOffset(base) == base - base % W32
  {
    hide And, Pow2;
    PowersOfTwo();
    AndComplement(base, Pow2(32) - 1, 64);
    AndLow(base, 32);
  }

  lemma HalvesJoin(address: Address, base: Address)
    requires address / W32 == base / W32
    ensures Or(address % W32, ImageOffset(base)) == address
  {
    hide Or, ImageOffset, Pow2;
    PowersOfTwo();
    ImageOffsetIs(base);
    OrDisjoint(base / W32, address % W32, 32);
  }

  /** The test of check4GBBoundaries. */
  predicate CrossesBoundary(base: nat, size: nat) { base / W32 < (base + size) / W32 }

  /**
   When the image does not cross a 4 GiB boundary, the 32 bits that copySections stores and the upper half
   of the image base give back the address of the section: for sections without raw data always, for
   sections with raw data exactly when the section starts on a page, because there the stored value is
   the page the commit returned.
  */
  lemma AddressesAreRecovered(s: SectionHeader, alignment: Word32, codeBase: Address, size: nat)
    requires codeBase % PAGE == 0 && codeBase + size < W64 && !CrossesBoundary(codeBase, size)
    requires s.virtualAddress <= size
    requires s.sizeOfRawData != 0 || alignment != 0
    ensures var recovered := Recovered(Placed(s, alignment, codeBase), codeBase);
      && (s.sizeOfRawData == 0 ==> recovered == codeBase + s.virtualAddress)
      && (s.sizeOfRawData != 0 ==> recovered == PageBase(codeBase + s.virtualAddress))
      && (recovered == codeBase + s.virtualAddress <==> s.sizeOfRawData == 0 || s.virtualAddress % PAGE == 0)
  {
    hide Or, ImageOffset, And;
    var address := codeBase + s.virtualAddress;
    LowHalfIs(address);
    LowHalfIs(PageBase(address));
    SameUpperHalf(codeBase, s.virtualAddress, size);
    HalvesJoin(address, codeBase);
    HalvesJoin(PageBase(address), codeBase);
  }

  lemma SameUpperHalf(codeBase: Address, va: nat, size: nat)
    requires codeBase % PAGE == 0 && codeBase / W32 == (codeBase + size) / W32 && va <= size
    ensures (codeBase + va) / W32 == codeBase / W32
    ensures PageBase(codeBase + va) / W32 == codeBase / W32
    ensures PageBase(codeBase + va) == codeBase + va <==> va % PAGE == 0
  {
    assert codeBase <= PageBase(codeBase + va) by {
      assert (codeBase + va) % PAGE <= va;
    }
  }

  // ----- Flags

  predicate AllDiscardable(es: seq<Extent>, lo: nat, hi: nat)
    requires lo <= hi <= |es|
  {
    forall i | lo <= i < hi :: es[i].Discardable()
  }

  function UnionOfFlags(es: seq<Extent>, lo: nat, hi: nat): bv32
    requires lo <= hi <= |es|
    decreases hi
  {
    if lo == hi then 0 else Union(UnionOfFlags(es, lo, hi - 1), es[hi - 1].flags)
  }

  /** The flags a run should have: all flags of its members, DISCARDABLE only if every member has it. */
  function RunFlags(es: seq<Extent>, lo: nat, hi: nat): bv32
    requires lo < hi <= |es|
  {
    if AllDiscardable(es, lo, hi) then UnionOfFlags(es, lo, hi) else Without(UnionOfFlags(es, lo, hi))
  }

  lemma WithoutDiscardable(x: bv32)
    ensures !Has(Without(x), MEM_DISCARDABLE)
  {
  }

  // The bits are written out in the arguments, where the verifier normalises them.

  lemma UnionIs(x: bv32, y: bv32) ensures Union(x, y) == x | y {}

  lemma WithoutIs(x: bv32) ensures Without(x) == x & 0xfdff_ffff {}

  lemma MaskedFirst(x: bv32, y: bv32)
    ensures Without((x & 0xfdff_ffff) | y) == Without(x | y)
  {
  }

  lemma DiscardableUnion(x: bv32, y: bv32)
    ensures Has(Union(x, y), MEM_DISCARDABLE) <==> Has(x, MEM_DISCARDABLE) || Has(y, MEM_DISCARDABLE)
  {
  }

  lemma UnionZero(x: bv32)
    ensures Union(0, x) == x
  {
  }

  lemma {:induction false} UnionHasMember(es: seq<Extent>, lo: nat, hi: nat, i: nat)
    requires lo <= i < hi <= |es| && es[i].Discardable()
    ensures Has(UnionOfFlags(es, lo, hi), MEM_DISCARDABLE)
    decreases hi
  {
    hide Has, Union;
    DiscardableUnion(UnionOfFlags(es, lo, hi - 1), es[hi - 1].flags);
    if i == hi - 1 {
    } else {
      UnionHasMember(es, lo, hi - 1, i);
    }
  }

  lemma RunIsDiscardable(es: seq<Extent>, lo: nat, hi: nat)
    requires lo < hi <= |es|
    ensures Has(RunFlags(es, lo, hi), MEM_DISCARDABLE) <==> AllDiscardable(es, lo, hi)
  {
    hide Has, Without;
    if AllDiscardable(es, lo, hi) {
      UnionHasMember(es, lo, hi, lo);
    } else {
      WithoutDiscardable(UnionOfFlags(es, lo, hi));
    }
  }

  lemma FlagsStart(es: seq<Extent>, i: nat)
    requires i < |es|
    ensures RunFlags(es, i, i + 1) == es[i].flags
  {
    hide Has, Without, Union;
    assert UnionOfFlags(es, i, i + 1) == Union(UnionOfFlags(es, i, i), es[i].flags);
    UnionZero(es[i].flags);
    if !es[i].Discardable() {
      Unflagged(es[i].flags);
    }
  }

  lemma Unflagged(x: bv32)
    requires !Has(x, MEM_DISCARDABLE)
    ensures Without(x) == x
  {
  }

  lemma FlagsMerge(es: seq<Extent>, lo: nat, i: nat)
    requires lo < i < |es|
    ensures MergedFlags(RunFlags(es, lo, i), es[i].flags) == RunFlags(es, lo, i + 1)
  {
    hide Has, Without, Union;
    RunIsDiscardable(es, lo, i);
    assert AllDiscardable(es, lo, i + 1) <==> AllDiscardable(es, lo, i) && es[i].Discardable();
    var x, y := UnionOfFlags(es, lo, i), es[i].flags;
    WithoutIs(x);
    UnionIs(x & 0xfdff_ffff, y);
    UnionIs(x, y);
    MaskedFirst(x, y);
  }

  // ----- Groups

  /** Sections in ascending order, not overlapping, below the end of the address space. */
  predicate Ascending(es: seq<Extent>) {
    && (forall i | 0 <= i < |es| :: es[i].End() < W64)
    && (forall i, j | 0 <= i < j < |es| :: es[i].End() <= es[j].address)
  }

  predicate PowerOfTwo(a: nat) {
    exists n: nat | n < 32 :: a == Pow2(n)
  }

  /** Start of the alignment page of an address. */
  function PageStart(address: nat, a: nat): nat
    requires a > 0
  {
    address - address % a
  }

  /** Nothing of e up to its end lies on the first page of f, nor does e start there. */
  predicate Separate(e: Extent, f: Extent, a: nat)
    requires a > 0
  {
    e.End() <= PageStart(f.address, a) && PageStart(e.address, a) != PageStart(f.address, a)
  }

  lemma AlignDownIsPageStart(address: nat, a: Word32)
    requires PowerOfTwo(a) && address < W64
    ensures a > 0 && AlignDown(address, a) == PageStart(address, a)
  {
    hide And, Pow2;
    var n: nat :| n < 32 && a == Pow2(n);
    AlignDownIs(address, n);
  }

  lemma PagesAreOrdered(x: nat, y: nat, a: nat)
    requires a > 0 && x <= y
    ensures PageStart(x, a) <= PageStart(y, a) <= y
  {
    FloorMonotone(x, y, a);
  }

  /** g describes sections lo..i. */
  predicate Describes(g: SectionData, es: seq<Extent>, lo: nat, i: nat, a: nat)
    requires lo < i <= |es| && a > 0
  {
    && g.address == es[lo].address
    && g.alignedAddress == PageStart(g.address, a)
    && g.address + g.size == es[i - 1].End()
    && g.flags == RunFlags(es, lo, i)
  }

  lemma StartDescribes(es: seq<Extent>, i: nat, a: Word32)
    requires i < |es| && Ascending(es) && PowerOfTwo(a)
    ensures a > 0 && Describes(Start(es[i], a), es, i, i + 1, a)
  {
    hide RunFlags, AlignDown, PowerOfTwo;
    AlignDownIsPageStart(es[i].address, a);
    FlagsStart(es, i);
  }

  lemma MergeDescribes(g: SectionData, es: seq<Extent>, lo: nat, i: nat, a: nat)
    requires lo < i < |es| && Ascending(es) && a > 0 && Describes(g, es, lo, i, a)
    ensures Describes(Merge(g, es[i]), es, lo, i + 1, a)
  {
    hide RunFlags, MergedFlags;
    FlagsMerge(es, lo, i);
    assert es[lo].address <= es[lo].End() <= es[i].address;
  }

  /** The test of the loop is the reference notion of a cut between two neighbouring sections. */
  lemma CutsAreSeparations(g: SectionData, es: seq<Extent>, lo: nat, i: nat, a: Word32)
    requires lo < i < |es| && Ascending(es) && PowerOfTwo(a) && a > 0 && Describes(g, es, lo, i, a)
    requires forall k | lo < k < i :: !Separate(es[k - 1], es[k], a)
    ensures SharesPage(g, es[i], a) <==> !Separate(es[i - 1], es[i], a)
  {
    hide RunFlags, AlignDown, PowerOfTwo;
    AlignDownIsPageStart(es[i].address, a);
    PagesAreOrdered(es[lo].address, es[i - 1].address, a);
    PagesAreOrdered(es[i - 1].address, es[i].address, a);
    var start := PageStart(es[i].address, a);
    if PageStart(es[i - 1].address, a) == start && es[i - 1].End() <= start {
      assert es[i - 1].address == PageStart(es[i - 1].address, a);
      StaysOnPage(es, lo, i - 1, a);
    }
  }

  /** A section that starts a page and yet belongs to the run has the whole run on its page. */
  lemma {:induction false} StaysOnPage(es: seq<Extent>, lo: nat, i: nat, a: nat)
    requires lo <= i < |es| && Ascending(es) && a > 0
    requires forall k | lo < k <= i :: !Separate(es[k - 1], es[k], a)
    requires es[i].address == PageStart(es[i].address, a)
    ensures PageStart(es[lo].address, a) == PageStart(es[i].address, a)
    decreases i
  {
    if lo == i {
    } else {
      assert !Separate(es[i - 1], es[i], a);
      assert es[i - 1].End() <= es[i].address;
      assert PageStart(es[i - 1].address, a) == PageStart(es[i].address, a);
      assert es[i - 1].address == PageStart(es[i - 1].address, a);
      StaysOnPage(es, lo, i - 1, a);
    }
  }

  /** rs cuts sections lo.. exactly between separate neighbours and describes each piece. */
  ghost predicate Partitions(rs: seq<Run>, es: seq<Extent>, lo: nat, a: nat)
    requires a > 0
    decreases |rs|
  {
    && rs != [] && rs[0].lo == lo < rs[0].hi <= |es|
    && Describes(rs[0].data, es, lo, rs[0].hi, a)
    && (forall k | lo < k < rs[0].hi :: !Separate(es[k - 1], es[k], a))
    && rs[0].data.last == (rs[0].hi == |es|)
    && (rs[0].hi == |es| <==> |rs| == 1)
    && (|rs| > 1 ==>
          && Separate(es[rs[0].hi - 1], es[rs[0].hi], a)
          && Partitions(rs[1..], es, rs[0].hi, a))
  }

  lemma {:induction false} RunsFromPartition(es: seq<Extent>, i: nat, g: SectionData, lo: nat, a: Word32)
    requires lo < i <= |es| && Ascending(es) && PowerOfTwo(a) && a > 0
    requires Describes(g, es, lo, i, a) && !g.last
    requires forall k | lo < k < i :: !Separate(es[k - 1], es[k], a)
    ensures Partitions(RunsFrom(es, i, g, lo, a), es, lo, a)
    decreases |es| - i
  {
    hide Ascending, PowerOfTwo, SharesPage, Separate, Merge, Start, RunFlags;
    if i == |es| {
    } else {
      CutsAreSeparations(g, es, lo, i, a);
      if SharesPage(g, es[i], a) {
        MergeDescribes(g, es, lo, i, a);
        MergeKeepsLast(g, es[i]);
        RunsFromPartition(es, i + 1, Merge(g, es[i]), lo, a);
      } else {
        StartDescribes(es, i, a);
        StartIsNotLast(es[i], a);
        RunsFromPartition(es, i + 1, Start(es[i], a), i, a);
        var rest := RunsFrom(es, i + 1, Start(es[i], a), i, a);
        var rs := [Run(g, lo, i)] + rest;
        assert rs[1..] == rest;
      }
    }
  }

  lemma MergeKeepsLast(g: SectionData, e: Extent)
    ensures Merge(g, e).last == g.last
  {
  }

  lemma StartIsNotLast(e: Extent, a: Word32)
    ensures !Start(e, a).last
  {
  }

  /**
   The ranges handed to finalizeSection partition the sections in order, with a cut exactly between
   neighbours that share no page; each range runs from the start of its first to the end of its last
   section and has the flags of its members.
  */
  lemma RunsPartition(es: seq<Extent>, a: Word32)
    requires |es| > 0 && Ascending(es) && PowerOfTwo(a)
    ensures a > 0 && Partitions(Runs(es, a), es, 0, a)
  {
    hide Ascending, PowerOfTwo, Describes, Separate, Start, RunsFrom, Partitions;
    StartDescribes(es, 0, a);
    StartIsNotLast(es[0], a);
    RunsFromPartition(es, 1, Start(es[0], a), 0, a);
  }

  // ----- No two ranges touch the same page

  lemma {:induction false} PartitionBounds(rs: seq<Run>, es: seq<Extent>, lo: nat, a: nat, k: nat)
    requires a > 0 && Partitions(rs, es, lo, a) && k < |rs|
    ensures lo <= rs[k].lo < rs[k].hi <= |es|
    ensures Describes(rs[k].data, es, rs[k].lo, rs[k].hi, a)
    ensures k > 0 ==> rs[0].hi <= rs[k].lo
    ensures k > 0 ==> Separate(es[rs[k].lo - 1], es[rs[k].lo], a)
    ensures rs[k].data.last <==> rs[k].hi == |es|
    decreases |rs|
  {
    hide Describes, Separate;
    if k == 0 {
    } else {
      PartitionBounds(rs[1..], es, rs[0].hi, a, k - 1);
    }
  }

  lemma {:induction false} PartitionCovers(rs: seq<Run>, es: seq<Extent>, lo: nat, a: nat, i: nat) returns (k: nat)
    requires a > 0 && Partitions(rs, es, lo, a) && lo <= i < |es|
    ensures k < |rs| && rs[k].lo <= i < rs[k].hi
    decreases |rs|
  {
    hide Describes, Separate;
    if i < rs[0].hi {
      k := 0;
    } else {
      k := PartitionCovers(rs[1..], es, rs[0].hi, a, i);
      k := k + 1;
    }
  }

  lemma {:induction false} RunsAreOrdered(rs: seq<Run>, es: seq<Extent>, lo: nat, a: nat, k: nat, l: nat)
    requires a > 0 && Partitions(rs, es, lo, a) && k < l < |rs|
    ensures rs[k].lo < rs[k].hi <= rs[l].lo < |es|
    decreases |rs|
  {
    hide Describes, Separate;
    if k == 0 {
      PartitionBounds(rs, es, lo, a, l);
      PartitionBounds(rs, es, lo, a, 0);
    } else {
      RunsAreOrdered(rs[1..], es, rs[0].hi, a, k - 1, l - 1);
    }
  }

  /** Every byte of an earlier range lies before the first page of a later one. */
  lemma RangesShareNoPage(es: seq<Extent>, a: Word32, k: nat, l: nat, x: nat, y: nat)
    requires |es| > 0 && Ascending(es) && PowerOfTwo(a) && k < l < |Runs(es, a)|
    requires var g := Runs(es, a)[k].data; g.address <= x < g.address + g.size
    requires var g := Runs(es, a)[l].data; g.address <= y
    ensures a > 0 && PageStart(x, a) != PageStart(y, a) && x < y
  {
    hide Runs, RunFlags, PowerOfTwo, PageStart, Partitions;
    RunsPartition(es, a);
    var rs := Runs(es, a);
    PartitionBounds(rs, es, 0, a, k);
    PartitionBounds(rs, es, 0, a, l);
    RunsAreOrdered(rs, es, 0, a, k, l);
    var first := rs[l].lo;
    assert rs[k].hi - 1 <= first - 1;
    assert es[rs[k].hi - 1].End() <= es[first - 1].End();
    assert x < PageStart(es[first].address, a);
    PagesAreOrdered(es[first].address, y, a);
    PagesAreOrdered(x, x, a);
  }

  // ----- Rights of the sections of a range

  predicate IsRight(f: bv32) { f == MEM_EXECUTE || f == MEM_READ || f == MEM_WRITE || f == MEM_NOT_CACHED }

  lemma ExecuteUnion(x: bv32, y: bv32)
    ensures Has(Union(x, y), MEM_EXECUTE) <==> Has(x, MEM_EXECUTE) || Has(y, MEM_EXECUTE)
  {
  }

  lemma ReadUnion(x: bv32, y: bv32)
    ensures Has(Union(x, y), MEM_READ) <==> Has(x, MEM_READ) || Has(y, MEM_READ)
  {
  }

  lemma WriteIs(x: bv32) ensures Has(x, MEM_WRITE) <==> x & 0x8000_0000 != 0 {}

  lemma TopBits(x: bv32, y: bv32)
    ensures (x | y) & 0x8000_0000 != 0 <==> x & 0x8000_0000 != 0 || y & 0x8000_0000 != 0
  {
  }

  lemma UncachedUnion(x: bv32, y: bv32)
    ensures Has(Union(x, y), MEM_NOT_CACHED) <==> Has(x, MEM_NOT_CACHED) || Has(y, MEM_NOT_CACHED)
  {
  }

  lemma HasUnion(x: bv32, y: bv32, f: bv32)
    requires IsRight(f)
    ensures Has(Union(x, y), f) <==> Has(x, f) || Has(y, f)
  {
    hide Has, Union;
    ExecuteUnion(x, y);
    ReadUnion(x, y);
    UnionIs(x, y);
    WriteIs(x);
    WriteIs(y);
    WriteIs(x | y);
    TopBits(x, y);
    UncachedUnion(x, y);
  }

  lemma HasNone(f: bv32)
    ensures !Has(0, f)
  {
  }

  lemma HasWithout(x: bv32, f: bv32)
    requires IsRight(f)
    ensures Has(Without(x), f) <==> Has(x, f)
  {
  }

  predicate SomeHas(es: seq<Extent>, lo: nat, hi: nat, f: bv32)
    requires lo <= hi <= |es|
  {
    exists i | lo <= i < hi :: Has(es[i].flags, f)
  }

  lemma {:induction false} UnionHas(es: seq<Extent>, lo: nat, hi: nat, f: bv32)
    requires lo <= hi <= |es| && IsRight(f)
    ensures Has(UnionOfFlags(es, lo, hi), f) <==> SomeHas(es, lo, hi, f)
    decreases hi
  {
    hide Has, Union;
    if lo == hi {
      HasNone(f);
    } else {
      HasUnion(UnionOfFlags(es, lo, hi - 1), es[hi - 1].flags, f);
      UnionHas(es, lo, hi - 1, f);
    }
  }

  lemma RunHas(es: seq<Extent>, lo: nat, hi: nat, f: bv32)
    requires lo < hi <= |es|
    requires IsRight(f)
    ensures Has(RunFlags(es, lo, hi), f) <==> SomeHas(es, lo, hi, f)
  {
    hide Has, Without, SomeHas;
    UnionHas(es, lo, hi, f);
    HasWithout(UnionOfFlags(es, lo, hi), f);
  }

  /**
   A range with a section that has to stay is protected, over all of its sections, with exactly the rights some
   section of the range asks for: no section loses a right to its neighbours. The one exception is reading, which
   Windows grants wherever writing is granted.
  */
  lemma RangesGrantTheirRights(es: seq<Extent>, a: Word32, k: nat)
    requires |es| > 0 && Ascending(es) && PowerOfTwo(a) && a > 0 && k < |Runs(es, a)|
    ensures var r := Runs(es, a)[k];
      && r.lo < r.hi <= |es|
      && r.data.address == es[r.lo].address && r.data.address + r.data.size == es[r.hi - 1].End()
      && (r.data.size > 0 && !AllDiscardable(es, r.lo, r.hi) ==>
            var p := Protection(r.data.flags);
            && Action(r.data, a) == [Protect(r.data.address, r.data.size, p)]
            && (Executes(p) <==> SomeHas(es, r.lo, r.hi, MEM_EXECUTE))
            && (Reads(p) <==> SomeHas(es, r.lo, r.hi, MEM_READ) || SomeHas(es, r.lo, r.hi, MEM_WRITE))
            && (Writes(p) <==> SomeHas(es, r.lo, r.hi, MEM_WRITE))
            && (Uncached(p) <==> SomeHas(es, r.lo, r.hi, MEM_NOT_CACHED)))
  {
    hide Runs, PowerOfTwo, Has, PageStart, Partitions, Ascending, RunFlags, SomeHas, Protection, AllDiscardable,
      Executes, Reads, Writes, Uncached;
    RunsPartition(es, a);
    PartitionBounds(Runs(es, a), es, 0, a, k);
    var r := Runs(es, a)[k];
    RunIsDiscardable(es, r.lo, r.hi);
    ProtectionGrants(r.data.flags);
    RunHas(es, r.lo, r.hi, MEM_EXECUTE);
    RunHas(es, r.lo, r.hi, MEM_READ);
    RunHas(es, r.lo, r.hi, MEM_WRITE);
    RunHas(es, r.lo, r.hi, MEM_NOT_CACHED);
  }

  // ----- Decommitting is safe

  /** Some page of the operating system holds both a byte of the range and a byte of e. */
  predicate SharesOsPage(address: nat, size: nat, e: Extent) {
    exists x, y | address <= x < address + size && e.address <= y < e.End() :: SamePage(x, y)
  }

  predicate SamePage(x: nat, y: nat) { x / PAGE == y / PAGE }

  /** No decommitted page holds a byte of a section that is not discardable. */
  ghost predicate DecommitsSafely(es: seq<Extent>, a: Word32)
    requires |es| > 0 && a > 0
  {
    forall k, i | 0 <= k < |Runs(es, a)| && 0 <= i < |es| && !es[i].Discardable() ::
      Discards(Runs(es, a)[k].data, a) ==>
        !SharesOsPage(Runs(es, a)[k].data.address, Runs(es, a)[k].data.size, es[i])
  }

  predicate Discards(g: SectionData, a: Word32)
    requires a > 0
  {
    Action(g, a) == [Decommit(g.address, g.size)]
  }

  lemma SamePageStart(x: nat, y: nat, a: nat)
    requires a > 0 && a % PAGE == 0 && SamePage(x, y)
    ensures PageStart(x, a) == PageStart(y, a)
  {
    var c := a / PAGE;
    assert a == PAGE * c;
    Tail(x, PAGE, c);
    Tail(y, PAGE, c);
    assert x == PAGE * (x / PAGE) + x % PAGE && y == PAGE * (y / PAGE) + y % PAGE;
  }

  /** For every power of two: no page of the alignment has both a byte that is given back and one that has to stay. */
  lemma DecommitsOwnPages(es: seq<Extent>, a: Word32, k: nat, i: nat, x: nat, y: nat)
    requires |es| > 0 && Ascending(es) && PowerOfTwo(a) && a > 0
    requires k < |Runs(es, a)| && i < |es| && !es[i].Discardable() && Discards(Runs(es, a)[k].data, a)
    requires var g := Runs(es, a)[k].data; g.address <= x < g.address + g.size && es[i].address <= y < es[i].End()
    ensures PageStart(x, a) != PageStart(y, a)
  {
    hide Runs, PowerOfTwo, Has, PageStart, Partitions, Ascending, Action, RunFlags;
    var rs := Runs(es, a);
    RunsPartition(es, a);
    var l := PartitionCovers(rs, es, 0, a, i);
    PartitionBounds(rs, es, 0, a, k);
    PartitionBounds(rs, es, 0, a, l);
    RunIsDiscardable(es, rs[k].lo, rs[k].hi);
    DiscardedFlags(rs[k].data, a);
    assert l != k;
    MemberInRange(es, rs[l].lo, rs[l].hi, i);
    if k < l {
      RangesShareNoPage(es, a, k, l, x, y);
    } else {
      RangesShareNoPage(es, a, l, k, y, x);
    }
  }

  /** Pages of the alignment contain whole pages of the system: decommitting a run hits only its own members. */
  lemma SafeOnWholePages(es: seq<Extent>, a: Word32, k: nat, i: nat)
    requires |es| > 0 && Ascending(es) && PowerOfTwo(a) && a > 0 && a % PAGE == 0
    requires k < |Runs(es, a)| && i < |es| && !es[i].Discardable() && Discards(Runs(es, a)[k].data, a)
    ensures !SharesOsPage(Runs(es, a)[k].data.address, Runs(es, a)[k].data.size, es[i])
  {
    hide Runs, PowerOfTwo, Has, PageStart, Ascending, SamePage, Discards;
    var g := Runs(es, a)[k].data;
    forall x, y | g.address <= x < g.address + g.size && es[i].address <= y < es[i].End() ensures !SamePage(x, y) {
      DecommitsOwnPages(es, a, k, i, x, y);
      if SamePage(x, y) {
        SamePageStart(x, y, a);
      }
    }
  }

  lemma DiscardedFlags(g: SectionData, a: Word32)
    requires a > 0 && Discards(g, a)
    ensures Has(g.flags, MEM_DISCARDABLE)
  {
  }

  lemma MemberInRange(es: seq<Extent>, lo: nat, hi: nat, i: nat)
    requires Ascending(es) && lo <= i < hi <= |es|
    ensures es[lo].address <= es[i].address && es[i].End() <= es[hi - 1].End()
  {
  }

  /** Two neighbours on one system page, of which the first fills an alignment page. */
  function Neighbours(base: nat, a: nat, first: bv32, second: bv32): seq<Extent> {
    [Extent(base, a, first), Extent(base + a, a, second)]
  }

  lemma {:induction false} SmallPowersDivide(n: nat)
    requires n < 12
    ensures PAGE % Pow2(n) == 0 && Pow2(n) < PAGE
  {
    assert Pow2(0) == 1 && Pow2(1) == 2 && Pow2(2) == 4 && Pow2(3) == 8 && Pow2(4) == 16 && Pow2(5) == 32;
    assert Pow2(6) == 64 && Pow2(7) == 128 && Pow2(8) == 256 && Pow2(9) == 512 && Pow2(10) == 1024 && Pow2(11) == 2048;
  }

  lemma {:induction false} LargePowersAreWholePages(n: nat)
    requires n >= 12
    ensures Pow2(n) % PAGE == 0
  {
    if n == 12 {
      PowerOfPage();
    } else {
      LargePowersAreWholePages(n - 1);
      var half := Pow2(n - 1);
      assert half == half / PAGE * PAGE;
      assert Pow2(n) == 2 * half;
      QuotientIs(Pow2(n), PAGE, 2 * (half / PAGE), 0);
    }
  }

  /** With an alignment below the page size, decommitting a discardable second neighbour takes the first along. */
  lemma UnsafeBelowPageSize(base: nat, a: Word32, first: bv32, second: bv32)
    requires 0 < a < PAGE && PAGE % a == 0 && PowerOfTwo(a) && base % PAGE == 0 && base + PAGE < W64
    requires !Has(first, MEM_DISCARDABLE) && Has(second, MEM_DISCARDABLE)
    ensures !DecommitsSafely(Neighbours(base, a, first, second), a)
  {
    hide And, PowerOfTwo, Has;
    var es := Neighbours(base, a, first, second);
    AlignDownIsPageStart(base, a);
    AlignDownIsPageStart(base + a, a);
    Remainders(base, a);
    var g0, g1 := Start(es[0], a), Start(es[1], a);
    assert !SharesPage(g0, es[1], a);
    var rs := Runs(es, a);
    assert RunsFrom(es, 2, g1, 1, a) == [Run(g1.(last := true), 1, 2)];
    assert rs == [Run(g0, 0, 1), Run(g1.(last := true), 1, 2)];
    assert rs[1].data == g1.(last := true);
    assert Discards(rs[1].data, a);
    assert SamePage(base + a, base);
    assert SharesOsPage(base + a, a, es[0]);
    assert !es[0].Discardable();
  }

  lemma Remainders(base: nat, a: nat)
    requires 0 < a < PAGE && PAGE % a == 0 && base % PAGE == 0
    ensures base % a == 0 && (base + a) % a == 0 && (base + a) / PAGE == base / PAGE
  {
    var q, k := base / PAGE, PAGE / a;
    Floor(base, PAGE);
    Floor(PAGE, a);
    assert base == q * k * a by {
      assert q * (k * a) == q * k * a;
    }
    QuotientIs(base, a, q * k, 0);
    assert (q * k + 1) * a == q * k * a + a;
    QuotientIs(base + a, a, q * k + 1, 0);
    QuotientIs(base + a, PAGE, q, a);
  }

  lemma SafeForAll(es: seq<Extent>, a: Word32)
    requires |es| > 0 && Ascending(es) && PowerOfTwo(a) && a > 0 && a % PAGE == 0
    ensures DecommitsSafely(es, a)
  {
    hide Runs, Discards, SharesOsPage, Ascending, PowerOfTwo;
    forall k, i | 0 <= k < |Runs(es, a)| && 0 <= i < |es| && !es[i].Discardable()
      ensures Discards(Runs(es, a)[k].data, a) ==>
        !SharesOsPage(Runs(es, a)[k].data.address, Runs(es, a)[k].data.size, es[i])
    {
      if Discards(Runs(es, a)[k].data, a) {
        SafeOnWholePages(es, a, k, i);
      }
    }
  }
}
