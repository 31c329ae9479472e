/** How far decommitting is safe: whole loads that keep or lose pages, and exactly when none is lost. */
module PageLimits {
  import opened Numbers
  import opened Bytes
  import opened Words
  import opened Wrappers
  import opened Os
  import opened PeHeaders
  import opened Sections
  import opened Finalize
  import opened PageGroups
  import opened Imports
  import opened Loader
  import opened RelocationMeaning
  import opened MappedHeaders
  import opened LoadedImage
  import opened SampleFiles

  /** A load that LoadLibrary completes, to a place the system may give it, whose sections start on pages and ascend. */
  ghost predicate Completed(l: Loading, resolve: Resolver) {
    && (exists machine: Machine :: HasPe(l.file, machine) && FindHeaders(l.file, machine) == PeAt(l.nt))
    && l.Succeeded(resolve) && InOneBlock(l.codeBase, ImageSize(l.Head())) && WellPlaced(l.Head())
  }

  /** No page that is given back holds a byte of a section that has to stay. */
  ghost predicate KeepsPages(actions: seq<PageAction>, es: seq<Extent>) {
    forall j, i | 0 <= j < |actions| && actions[j].Decommit? && 0 <= i < |es| && !es[i].Discardable() ::
      !SharesOsPage(actions[j].address, actions[j].size, es[i])
  }

  /** No completed load with this section alignment loses a page that has to stay. */
  ghost predicate NeverLosesPages(a: Word32) {
    forall l, resolve, blocks, ds |
      Completed(l, resolve) && Regular(l, resolve, blocks, ds) && l.Head().sectionAlignment == a ::
      KeepsPages(l.actions, TrueExtents(l.Head(), l.codeBase))
  }

  // ----- Actions and groups

  /** Every action is that of a group. */
  lemma {:induction false} GroupOf(rs: seq<Run>, a: Word32, j: nat) returns (k: nat)
    requires a > 0 && j < |Actions(rs, a)|
    ensures k < |rs| && Action(rs[k].data, a) == [Actions(rs, a)[j]]
    decreases |rs|
  {
    hide Action;
    var n := |Action(rs[0].data, a)|;
    AtMostOne(rs[0].data, a);
    if j < n {
      k := 0;
    } else {
      k := GroupOf(rs[1..], a, j - n);
      k := k + 1;
    }
  }

  lemma AtMostOne(g: SectionData, a: Word32)
    requires a > 0
    ensures |Action(g, a)| <= 1
  {
    hide Protection, Has;
  }

  /** The action of every group is taken. */
  lemma {:induction false} ActionOf(rs: seq<Run>, a: Word32, k: nat) returns (j: nat)
    requires a > 0 && k < |rs| && Action(rs[k].data, a) != []
    ensures j < |Actions(rs, a)| && Actions(rs, a)[j] == Action(rs[k].data, a)[0]
    decreases |rs|
  {
    hide Action;
    if k == 0 {
      j := 0;
    } else {
      j := ActionOf(rs[1..], a, k - 1);
      j := |Action(rs[0].data, a)| + j;
    }
  }

  /** Pages are lost by an action exactly when a group is decommitted that shares one. */
  lemma KeepsExactly(es: seq<Extent>, a: Word32)
    requires |es| > 0 && a > 0
    ensures KeepsPages(Actions(Runs(es, a), a), es) <==> DecommitsSafely(es, a)
  {
    hide Actions, Runs, SharesOsPage, Action, Has;
    var rs, actions := Runs(es, a), Actions(Runs(es, a), a);
    if DecommitsSafely(es, a) {
      forall j, i | 0 <= j < |actions| && actions[j].Decommit? && 0 <= i < |es| && !es[i].Discardable()
        ensures !SharesOsPage(actions[j].address, actions[j].size, es[i])
      {
        var k := GroupOf(rs, a, j);
        DecommitIs(rs[k].data, a);
        assert Discards(rs[k].data, a);
      }
    }
    if KeepsPages(actions, es) {
      forall k, i | 0 <= k < |rs| && 0 <= i < |es| && !es[i].Discardable()
        ensures Discards(rs[k].data, a) ==> !SharesOsPage(rs[k].data.address, rs[k].data.size, es[i])
      {
        if Discards(rs[k].data, a) {
          var j := ActionOf(rs, a, k);
        }
      }
    }
  }

  lemma DecommitIs(g: SectionData, a: Word32)
    requires a > 0 && |Action(g, a)| == 1 && Action(g, a)[0].Decommit?
    ensures Action(g, a) == [Decommit(g.address, g.size)]
  {
    hide Protection, Has;
  }

  // ----- What is done with each group

  /** Every section of the group has the flag that lets it be discarded. */
  predicate MayGo(es: seq<Extent>, lo: nat, hi: nat)
    requires lo <= hi <= |es|
  {
    forall i | lo <= i < hi :: es[i].flags & 0x0200_0000 != 0
  }

  /** The group of sections lo..hi consists of whole pages of the alignment, or ends the image. */
  predicate MadeOfPages(es: seq<Extent>, lo: nat, hi: nat, a: nat)
    requires lo < hi <= |es| && a > 0 && es[lo].address <= es[hi - 1].End()
  {
    es[lo].address % a == 0 && (hi == |es| || (es[hi - 1].End() - es[lo].address) % a == 0)
  }

  /**
   What is done with a group, from its first to its last byte: nothing if it is empty; if all of its sections may go, it
   is given back if it is made of pages, and left alone otherwise; and every other group is protected.
  */
  lemma GroupIsActedOn(es: seq<Extent>, a: Word32, k: nat)
    requires |es| > 0 && Ascending(es) && PowerOfTwo(a) && k < |Runs(es, a)|
    ensures a > 0
    ensures var r := Runs(es, a)[k];
      && r.lo < r.hi <= |es| && es[r.lo].address <= es[r.hi - 1].End()
      && var address, size := es[r.lo].address, es[r.hi - 1].End() - es[r.lo].address;
      Action(r.data, a) ==
        if size == 0 then []
        else if !MayGo(es, r.lo, r.hi) then [Protect(address, size, Protection(r.data.flags))]
        else if MadeOfPages(es, r.lo, r.hi, a) then [Decommit(address, size)]
        else []
  {
    hide Runs, PowerOfTwo, Ascending, RunFlags, Partitions, Protection;
    var r := Runs(es, a)[k];
    RunsPartition(es, a);
    PartitionBounds(Runs(es, a), es, 0, a, k);
    MemberInRange(es, r.lo, r.hi, r.lo);
    RunIsDiscardable(es, r.lo, r.hi);
    OnPageStart(r.data.address, a);
  }

  lemma OnPageStart(address: nat, a: nat)
    requires a > 0
    ensures address == PageStart(address, a) <==> address % a == 0
  {
  }

  /** A group that is not empty is given back exactly when all of its sections may go and it is made of pages. */
  lemma DecommitsExactly(es: seq<Extent>, a: Word32, k: nat)
    requires |es| > 0 && Ascending(es) && PowerOfTwo(a) && k < |Runs(es, a)|
    ensures a > 0
    ensures var r := Runs(es, a)[k];
      && r.lo < r.hi <= |es| && es[r.lo].address <= es[r.hi - 1].End()
      && var address, size := es[r.lo].address, es[r.hi - 1].End() - es[r.lo].address;
      size > 0 ==>
        (Decommit(address, size) in Actions(Runs(es, a), a) <==>
           MayGo(es, r.lo, r.hi) && MadeOfPages(es, r.lo, r.hi, a))
  {
    hide Runs, PowerOfTwo, Ascending, Action, Actions, MayGo, MadeOfPages;
    GroupIsActedOn(es, a, k);
    var rs := Runs(es, a);
    var r, actions := rs[k], Actions(rs, a);
    var address, size := es[r.lo].address, es[r.hi - 1].End() - es[r.lo].address;
    if size > 0 {
      if Decommit(address, size) in actions {
        var j: nat :| j < |actions| && actions[j] == Decommit(address, size);
        var l := GroupOf(rs, a, j);
        GroupIsActedOn(es, a, l);
        OnlyGroup(es, a, k, l);
      }
      if MayGo(es, r.lo, r.hi) && MadeOfPages(es, r.lo, r.hi, a) {
        var j := ActionOf(rs, a, k);
      }
    }
  }

  /** Groups that are not empty start at different addresses. */
  lemma OnlyGroup(es: seq<Extent>, a: Word32, k: nat, l: nat)
    requires |es| > 0 && Ascending(es) && PowerOfTwo(a) && k < |Runs(es, a)| && l < |Runs(es, a)|
    ensures var r, t := Runs(es, a)[k], Runs(es, a)[l];
      && r.lo < r.hi <= |es| && t.lo < t.hi <= |es|
      && (k == l || es[r.lo].address != es[t.lo].address || es[r.lo].address >= es[r.hi - 1].End()
          || es[t.lo].address >= es[t.hi - 1].End())
  {
    hide Runs, PowerOfTwo, Partitions, Describes, Separate;
    RunsPartition(es, a);
    var rs := Runs(es, a);
    PartitionBounds(rs, es, 0, a, k);
    PartitionBounds(rs, es, 0, a, l);
    if k < l {
      RunsAreOrdered(rs, es, 0, a, k, l);
    } else if l < k {
      RunsAreOrdered(rs, es, 0, a, l, k);
    }
  }

  /** The protection by the top three flags and the flag against caching, as Windows numbers them. */
  lemma ProtectionIs(flags: bv32)
    ensures var top := (flags >> 29) as nat;
      && top < 8
      && Protection(flags) == [0x01, 0x10, 0x02, 0x20, 0x08, 0x80, 0x04, 0x40][top]
                              + if flags & 0x0400_0000 != 0 then 0x200 else 0
  {
  }

  // ----- A load in place

  /**
   A file that keeps off its headers, imports nothing, and is copied to its preferred base is loaded without a fixup
   and without a slot.
  */
  lemma LoadsInPlace(file: seq<byte>, nt: nat, resolve: Resolver) returns (l: Loading)
    requires HasHeaders(file, nt) && HeadersApart(file, nt) && Copyable(file, nt)
    requires var h := HeadersAt(file, nt); h.imports.size == 0 && SectionsMapped(file, nt, h, h.imageBase).1.Copied?
    ensures Regular(l, resolve, [], []) && l.file == file && l.nt == nt && l.codeBase == l.Head().imageBase
  {
    hide HeadersAt, HeadersApart, LayoutOk, ImageSize, SectionsMapped, SectionsCopied, HeadersHeld, Passes,
      PassActions, Table, U16, ImageBuilt, FinalizedFrom, TablesAre, KeepsOffHeaders, HasHeaders, LiveHeader, Dword,
      Fits;
    var h := HeadersAt(file, nt);
    var base := h.imageBase;
    MappedAsCopied(file, nt, base);
    var m, placed := SectionsMapped(file, nt, h, base).0, SectionsCopied(file, nt, h, base).1;
    var image, actions := FinalizedInPlace(file, nt, m, placed, base);
    BuiltInPlace(file, nt, m, placed, base, resolve);
    l := Loading(file, nt, base, true, [], m, image, actions);
    NothingListed(l);
  }

  lemma BuiltInPlace(file: seq<byte>, nt: nat, m: seq<byte>, placed: seq<SectionHeader>, base: Address,
      resolve: Resolver)
    requires HasHeaders(file, nt) && HeadersHeld(file, nt, m, placed, base) && base == HeadersAt(file, nt).imageBase
    requires HeadersAt(file, nt).imports.size == 0 && Fits(file, nt, HeadersAt(file, nt))
    requires SectionsMapped(file, nt, HeadersAt(file, nt), base) == (m, Copied)
    ensures ImageBuilt(m, true, file, nt, HeadersAt(file, nt), base, [], resolve)
  {
    hide HeadersAt, SectionsMapped, Fits, ImageSize, Qword, DirectoryAt, Table, Dword, U16, ImportFrom, LiveHeader;
    HeldTable(file, nt, m, placed, base);
    assert LocationDelta(m, nt, HeadersAt(file, nt)) == 0;
  }

  lemma FinalizedInPlace(file: seq<byte>, nt: nat, m: seq<byte>, placed: seq<SectionHeader>, base: Address)
    returns (image: seq<byte>, actions: seq<PageAction>)
    requires HasHeaders(file, nt) && HeadersApart(file, nt) && Copyable(file, nt)
    requires HeadersHeld(file, nt, m, placed, base)
    ensures nt + OPTIONAL_HEADER <= |m| && FinalizedFrom(m, image, nt, actions)
  {
    hide HeadersAt, HeadersApart, LayoutOk, ImageSize, HeadersHeld, Passes, PassActions, Table, SizedFrom, RealSize,
      U16, Has, LiveHeader, PageActions, Agree, Fits;
    NotEmpty(HeadersAt(file, nt));
    HeldTable(file, nt, m, placed, base);
    HeldCounts(file, nt, m, placed, base);
    BaseHeld(file, nt, m, placed, base);
    BehindFields(file, nt);
    SectionsCounted(file, nt);
    var t, n := TableStart(file, nt), SectionCount(file, nt);
    AlignmentKept(HeadersAt(file, nt), base);
    PassesActOnSections(m, nt, t, n);
    var ps := Passes(m, nt, t, n);
    image, actions := ps[|ps| - 1].memory, PassActions(ps);
  }

  lemma SectionsCounted(file: seq<byte>, nt: nat)
    requires HasHeaders(file, nt)
    ensures |HeadersAt(file, nt).sections| == SectionCount(file, nt)
  {
    hide SectionAt, Dword, Qword, DirectoryAt, And;
  }

  lemma NothingListed(l: Loading)
    requires l.HasFile() && HeadersApart(l.file, l.nt) && Fits(l.file, l.nt, l.Head())
    requires l.codeBase == l.Head().imageBase && l.Head().imports.size == 0
    ensures TablesAre(l, [], []) && KeepsOffHeaders(l, [], [])
  {
    hide HeadersApart, HeadersAt, Fits, SectionsMapped, Relocated, ImageSize, Relocatable;
    assert TableFixups([]) == [];
  }

  // ----- Sections on one page

  // The second section has no raw data; its size comes from the size of uninitialized data.
  const DISCARDED: Word32 := 0x0200_0080

  /** A section with a bytes of raw data and, on the same system page, a discardable one. */
  function Sharing(a: Word32): (file: seq<byte>)
    requires a < PAGE
    ensures |file| == LENGTH
  {
    FileOf(a, PAGE + 2 * a, a, 2, Section(PAGE, a, 0, 0), Section(PAGE + a, 0, 0, DISCARDED))
  }

  function SharingHeaders(a: Word32): Headers
    requires a < PAGE
  {
    HeadersOf(a, PAGE + 2 * a, a, 2, Section(PAGE, a, 0, 0), Section(PAGE + a, 0, 0, DISCARDED))
  }

  lemma SharingRead(a: Word32)
    requires a < PAGE
    ensures FindHeaders(Sharing(a), AMD64) == PeAt(NT) && HasHeaders(Sharing(a), NT)
    ensures TableStart(Sharing(a), NT) == TABLE && SectionCount(Sharing(a), NT) == 2
    ensures HeadersAt(Sharing(a), NT) == SharingHeaders(a)
  {
    hide FileOf, HasHeaders, HeadersAt, FindHeaders, TableStart, SectionCount, HeadersOf;
    HeadersRead(a, PAGE + 2 * a, a, 2, Section(PAGE, a, 0, 0), Section(PAGE + a, 0, 0, DISCARDED));
  }

  lemma SharingLayout(a: Word32, n: nat)
    requires n < 12 && a == Pow2(n) && a % 2 == 0
    ensures 0 < a < PAGE && PAGE % a == 0
    ensures var h := SharingHeaders(a);
      && LayoutOk(h.sections, h.sizeOfImage, h.sectionAlignment) && ImageSize(h) == PAGE + 2 * a
  {
    hide AlignUp, FlagsOf, Pow2;
    SmallPowersDivide(n);
    MultiplesOf(a);
    AlignUpMultiple(PAGE + 2 * a, n, a);
    var h := SharingHeaders(a);
    var s, t := h.sections[0], h.sections[1];
    assert LastEnd([], a) == 0;
    assert [s][..0] == [];
    assert LastEnd([s], a) == PAGE + a;
    assert [s, t][..1] == [s];
    assert LastEnd([s, t], a) == PAGE + 2 * a;
  }

  lemma MultiplesOf(a: nat)
    requires 0 < a && PAGE % a == 0
    ensures (PAGE + 2 * a) % a == 0
  {
    Floor(PAGE, a);
    QuotientIs(PAGE + 2 * a, a, PAGE / a + 2, 0);
  }

  lemma SharingFlags()
    ensures !Has(FlagsOf(0), MEM_DISCARDABLE) && Has(FlagsOf(DISCARDED), MEM_DISCARDABLE)
    ensures !Has(FlagsOf(DISCARDED), CNT_INITIALIZED_DATA) && Has(FlagsOf(DISCARDED), CNT_UNINITIALIZED_DATA)
  {
  }

  lemma SharingPlaced(a: Word32)
    requires 0 < a < PAGE
    ensures var h := SharingHeaders(a);
      && WellPlaced(h)
      && TrueExtents(h, PREFERRED) == Neighbours(PREFERRED + PAGE, a, FlagsOf(0), FlagsOf(DISCARDED))
  {
    hide FlagsOf, Has;
    SharingFlags();
  }

  lemma SharingCopied(a: Word32)
    requires 0 < a < PAGE && HasHeaders(Sharing(a), NT) && HeadersAt(Sharing(a), NT) == SharingHeaders(a)
    requires var h := SharingHeaders(a);
      && LayoutOk(h.sections, h.sizeOfImage, h.sectionAlignment) && ImageSize(h) == PAGE + 2 * a
    ensures Fits(Sharing(a), NT, SharingHeaders(a))
    ensures SectionsCopied(Sharing(a), NT, SharingHeaders(a), PREFERRED).2.Copied?
  {
    hide FlagsOf, LayoutOk, ImageSize, FileOf, HasHeaders, HeadersAt, BaseStored, LowHalf, Sharing, CopyOne;
    var file, h := Sharing(a), SharingHeaders(a);
    NotEmpty(h);
    var m0 := BaseStored(file, NT, h, PREFERRED);
    var s, t := h.sections[0], h.sections[1];
    var sections1 := h.sections[0 := Placed(s, a, PREFERRED)];
    var m1 := CopyOne(m0, s, file, a);
    assert Examine(s, |file|).Copied? && Examine(t, |file|).Copied? && sections1[1] == t;
    var m2, sections2 := CopyOne(m1, t, file, a), sections1[1 := Placed(t, a, PREFERRED)];
    assert CopyFrom(m2, sections2, 2, file, a, PREFERRED).2.Copied?;
    assert CopyFrom(m1, sections1, 1, file, a, PREFERRED).2.Copied?;
  }

  lemma SharingApart(a: Word32)
    requires 0 < a < PAGE && HasHeaders(Sharing(a), NT) && HeadersAt(Sharing(a), NT) == SharingHeaders(a)
    requires TableStart(Sharing(a), NT) == TABLE && SectionCount(Sharing(a), NT) == 2
    ensures HeadersApart(Sharing(a), NT)
  {
    hide FlagsOf, Sharing, HasHeaders, HeadersAt, TableStart, SectionCount;
    forall p | HeaderByte(p, NT, TABLE, TABLE + 2 * SECTION_HEADER)
      ensures NoneOver(SharingHeaders(a).sections, a, p, 0)
    {
      assert p < PAGE;
    }
  }

  /** The file is copied to its preferred base, inside one 4 GiB block, and its sections are well placed. */
  lemma SharingIsCopied(a: Word32, n: nat)
    requires n < 12 && a == Pow2(n) && a % 2 == 0
    ensures 0 < a < PAGE && PAGE % a == 0 && FindHeaders(Sharing(a), AMD64) == PeAt(NT)
    ensures var file, h := Sharing(a), SharingHeaders(a);
      && HasHeaders(file, NT) && HeadersAt(file, NT) == h
      && HeadersApart(file, NT) && Copyable(file, NT) && SectionsMapped(file, NT, h, PREFERRED).1.Copied?
      && LayoutOk(h.sections, h.sizeOfImage, h.sectionAlignment) && InOneBlock(PREFERRED, ImageSize(h)) && WellPlaced(h)
  {
    hide FlagsOf, Sharing, SharingHeaders, HasHeaders, HeadersAt, TableStart, SectionCount, LayoutOk, ImageSize,
      FindHeaders, HeadersApart, SectionsCopied, SectionsMapped, Pow2, WellPlaced, CrossesBoundary, TrueExtents, Fits,
      HeadersHeld;
    SharingLayout(a, n);
    SharingRead(a);
    SharingPlaced(a);
    SharingApart(a);
    SharingCopied(a);
    PreferredInOneBlock(a);
    MappedAsCopied(Sharing(a), NT, PREFERRED);
  }

  /**
   For each smaller power of two but 1, which the loader rejects: the loader accepts the file, completes its load at
   the preferred base, and gives back a page that holds a byte of the section that has to stay.
  */
  lemma SharingLosesPages(a: Word32, n: nat, resolve: Resolver) returns (l: Loading)
    requires n < 12 && a == Pow2(n) && a % 2 == 0
    ensures a < PAGE && l.file == Sharing(a) && l.nt == NT && l.codeBase == PREFERRED
    ensures Completed(l, resolve) && Regular(l, resolve, [], []) && l.Head().sectionAlignment == a
    ensures TrueExtents(l.Head(), l.codeBase) == Neighbours(PREFERRED + PAGE, a, FlagsOf(0), FlagsOf(DISCARDED))
    ensures !KeepsPages(l.actions, TrueExtents(l.Head(), l.codeBase))
  {
    hide FlagsOf, Sharing, SharingHeaders, HasHeaders, HeadersAt, LayoutOk, ImageSize, FindHeaders, HeadersApart,
      Pow2, SectionsMapped, TrueExtents, Neighbours, WellPlaced, InOneBlock, KeepsPages, ImageBuilt, FinalizedFrom,
      TablesAre, KeepsOffHeaders, Copyable;
    SharingIsCopied(a, n);
    SharingFields(a);
    SharingPlaced(a);
    var file := Sharing(a);
    l := LoadsInPlace(file, NT, resolve);
    assert HasPe(file, AMD64);
    NeighboursLose(l, resolve, a, n);
  }

  lemma NeighboursLose(l: Loading, resolve: Resolver, a: Word32, n: nat)
    requires Regular(l, resolve, [], []) && WellPlaced(l.Head()) && InOneBlock(l.codeBase, ImageSize(l.Head()))
    requires n < 12 && a == Pow2(n) && PAGE % a == 0 && a < PAGE && l.Head().sectionAlignment == a
    requires TrueExtents(l.Head(), l.codeBase) == Neighbours(PREFERRED + PAGE, a, FlagsOf(0), FlagsOf(DISCARDED))
    ensures !KeepsPages(l.actions, TrueExtents(l.Head(), l.codeBase))
  {
    hide FlagsOf, HasHeaders, HeadersAt, Pow2, TrueExtents, Neighbours, WellPlaced, InOneBlock, KeepsPages,
      ImageBuilt, FinalizedFrom, TablesAre, KeepsOffHeaders, DecommitsSafely, Actions, Runs, Has, LayoutOk, ImageSize;
    SharingFlags();
    ActsOnTrueExtents(l, resolve, [], []);
    UnsafeBelowPageSize(PREFERRED + PAGE, a, FlagsOf(0), FlagsOf(DISCARDED));
    KeepsExactly(TrueExtents(l.Head(), l.codeBase), a);
  }

  lemma SharingFields(a: Word32)
    requires a < PAGE
    ensures var h := SharingHeaders(a); h.sectionAlignment == a && h.imageBase == PREFERRED && h.imports.size == 0
  {
  }

  lemma PreferredInOneBlock(a: nat)
    requires a < PAGE
    ensures InOneBlock(PREFERRED, PAGE + 2 * a)
  {
  }

  /**
   Decommitting never takes a page from a section that has to stay, in whatever load that completes with well placed
   sections, exactly when the section alignment is a multiple of the page size.
  */
  lemma DecommitSafety(a: Word32)
    requires PowerOfTwo(a) && a % 2 == 0
    ensures NeverLosesPages(a) <==> a % PAGE == 0
  {
    hide NeverLosesPages, PowerOfTwo;
    var n := ExponentOf(a);
    if n >= 12 {
      LargePowersAreWholePages(n);
      WholePagesNeverLost(a);
    } else {
      SmallPowersDivide(n);
      SmallPowersLose(a, n);
    }
  }

  lemma ExponentOf(a: Word32) returns (n: nat)
    requires PowerOfTwo(a)
    ensures n < 32 && a == Pow2(n)
  {
    n :| n < 32 && a == Pow2(n);
  }

  lemma SmallPowersLose(a: Word32, n: nat)
    requires n < 12 && a == Pow2(n) && a % 2 == 0
    ensures !NeverLosesPages(a)
  {
    hide Completed, Regular, KeepsPages, TrueExtents, Sharing, Neighbours, HeadersAt, FlagsOf, Pow2;
    var resolve: Resolver := (handle, symbol) => None;
    var l := SharingLosesPages(a, n, resolve);
  }

  lemma WholePagesNeverLost(a: Word32)
    requires PowerOfTwo(a) && a > 0 && a % PAGE == 0
    ensures NeverLosesPages(a)
  {
    hide DecommitsSafely, HeadersAt, HasPe, ImageSize, InOneBlock, PowerOfTwo, Regular, TrueExtents, WellPlaced,
      KeepsPages, ImageBuilt, FinalizedFrom, LayoutOk, Actions, Runs, Partitions, FindHeaders, HasHeaders;
    forall l, resolve, blocks, ds
        | Completed(l, resolve) && Regular(l, resolve, blocks, ds) && l.Head().sectionAlignment == a
      ensures KeepsPages(l.actions, TrueExtents(l.Head(), l.codeBase))
    {
      LoadedPagesAreSafe(l, resolve, blocks, ds);
      KeepsExactly(TrueExtents(l.Head(), l.codeBase), a);
    }
  }
}
