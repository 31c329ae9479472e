/** What a loaded module contains, across headers, copying, relocation, imports and finalization. */
module LoadedImage {
  import opened Numbers
  import opened Bytes
  import opened Words
  import opened Os
  import opened PeHeaders
  import opened Sections
  import opened Finalize
  import opened PageGroups
  import opened Imports
  import opened ImportMeaning
  import opened ImportBytes
  import opened Loader
  import opened MappedHeaders
  import R = Relocation
  import opened RelocationMeaning

  /**
   A load that succeeded: the file, where its NT headers are, the base the image got, what relocation and import
   reported, and the image before and after finalizeSections with the actions on its pages.
  */
  datatype Loading = Loading(file: seq<byte>, nt: nat, codeBase: Address, relocated: bool, loads: seq<Load>,
    before: seq<byte>, image: seq<byte>, actions: seq<PageAction>)
  {
    predicate HasFile() {
      HasHeaders(file, nt)
    }

    function Head(): Headers
      requires HasFile()
    {
      HeadersAt(file, nt)
    }

    /** The section headers of the file start here. */
    function Table(): nat
      requires HasFile()
    {
      TableStart(file, nt)
    }

    /** They end here. */
    function End(): nat
      requires HasFile()
    {
      HeadersEnd(file, nt)
    }

    /** What LoadLibrary has checked and done. */
    ghost predicate Succeeded(resolve: Resolver) {
      && HasFile()
      && LayoutOk(Head().sections, Head().sizeOfImage, Head().sectionAlignment) && 0 < ImageSize(Head())
      && ImageBuilt(before, relocated, file, nt, Head(), codeBase, loads, resolve)
      && FinalizedFrom(before, image, nt, actions)
    }
  }

  /** The base got a reservation in one 4 GiB block. */
  predicate InOneBlock(codeBase: Address, size: nat) {
    codeBase % PAGE == 0 && codeBase + size <= USER_LIMIT && !CrossesBoundary(codeBase, size)
  }

  /** A load that LoadLibrary reports as successful succeeded in this sense. */
  lemma LoadSucceeded(m: Module, file: seq<byte>, machine: Machine, os: OperatingSystem, before: seq<byte>,
      loads: seq<Load>, actions: seq<PageAction>)
    requires HasPe(file, machine) && Consistent(os.reserved)
    requires var nt := FindHeaders(file, machine).nt; var h := HeadersAt(file, nt);
      m.IsMapped(os, ImageSize(h)) && m.BuiltFrom(before, file, nt, h, os, loads, actions)
    ensures m.codeBase < W64
    ensures var l := Loading(file, FindHeaders(file, machine).nt, m.codeBase, m.isRelocated, loads, before, m.image[..],
        actions);
      l.Succeeded(os.resolve) && InOneBlock(l.codeBase, ImageSize(l.Head()))
  {
    hide LayoutOk, ImageSize, HeadersAt, FindHeaders, FinalizedFrom, ImageBuilt, HasHeaders, InOneBlock,
      Module.IsMapped, Module.BuiltFrom, Dword, U16, Consistent;
    var nt := FindHeaders(file, machine).nt;
    MappedInOneBlock(m, os, ImageSize(HeadersAt(file, nt)));
    BuiltAsRecorded(m, file, nt, os, before, loads, actions);
  }

  lemma MappedInOneBlock(m: Module, os: OperatingSystem, size: nat)
    requires m.IsMapped(os, size) && Consistent(os.reserved)
    ensures 0 < size && m.codeBase < W64 && InOneBlock(m.codeBase, size)
  {
    hide CrossesBoundary;
    GranulesArePages(m.codeBase);
  }

  lemma GranulesArePages(address: nat)
    requires address % GRANULARITY == 0
    ensures address % PAGE == 0
  {
    QuotientIs(address, PAGE, address / GRANULARITY * 16, 0);
  }

  lemma BuiltAsRecorded(m: Module, file: seq<byte>, nt: nat, os: OperatingSystem, before: seq<byte>, loads: seq<Load>,
      actions: seq<PageAction>)
    requires HasHeaders(file, nt) && m.BuiltFrom(before, file, nt, HeadersAt(file, nt), os, loads, actions)
    ensures m.codeBase < W64
    ensures ImageBuilt(before, m.isRelocated, file, nt, HeadersAt(file, nt), m.codeBase, loads, os.resolve)
    ensures nt + OPTIONAL_HEADER <= |before| && FinalizedFrom(before, m.image[..], nt, actions)
  {
    hide HeadersAt, FinalizedFrom, SectionsMapped, Relocated, WithImports, HasHeaders, Dword, ImageSize;
  }

  /** The image between copying and relocation. */
  function CopiedImage(l: Loading): (m: seq<byte>)
    requires l.HasFile() && Fits(l.file, l.nt, l.Head())
    ensures |m| == ImageSize(l.Head())
  {
    SectionsMapped(l.file, l.nt, l.Head(), l.codeBase).0
  }

  /** The image between relocation and import. */
  function RelocatedImage(l: Loading): (m: seq<byte>)
    requires l.HasFile() && Fits(l.file, l.nt, l.Head())
    ensures |m| == ImageSize(l.Head())
  {
    Relocated(CopiedImage(l), l.nt, l.Head()).0
  }

  /** Section headers with the places of the sections. */
  function PlacedSections(l: Loading): (sections: seq<SectionHeader>)
    requires l.HasFile() && Fits(l.file, l.nt, l.Head())
    requires LayoutOk(l.Head().sections, l.Head().sizeOfImage, l.Head().sectionAlignment) && 0 < ImageSize(l.Head())
    ensures |sections| == |l.Head().sections|
  {
    SectionsCopied(l.file, l.nt, l.Head(), l.codeBase).1
  }

  /** How far the image lies from its preferred base. */
  function Distance(l: Loading): R.Delta
    requires l.HasFile()
  {
    (l.codeBase - l.Head().imageBase) % W64
  }

  /** The relocation table lists the blocks, or there is none, or none is needed; and the import table lists ds. */
  ghost predicate TablesAre(l: Loading, blocks: seq<Block>, ds: seq<Import>)
    requires l.HasFile() && Fits(l.file, l.nt, l.Head())
  {
    && (if Distance(l) == 0 || l.Head().relocations.size == 0 then blocks == []
        else Relocatable(CopiedImage(l), l.Head().relocations, blocks))
    && (if l.Head().imports.size == 0 then ds == []
        else
          && DescriptorsAt(RelocatedImage(l), l.Head().imports.virtualAddress, ds)
          && SlotsApart(RelocatedImage(l), l.Head().imports.virtualAddress, ds))
  }

  /** No section, fixup or slot lies on a header byte that is read again. */
  ghost predicate KeepsOffHeaders(l: Loading, blocks: seq<Block>, ds: seq<Import>)
    requires l.HasFile()
  {
    && HeadersApart(l.file, l.nt)
    && forall p | HeaderByte(p, l.nt, l.Table(), l.End()) :: !Covered(TableFixups(blocks), p) && !InSlots(ds, p)
  }

  /** A load whose tables are known and whose headers are kept. */
  ghost predicate Regular(l: Loading, resolve: Resolver, blocks: seq<Block>, ds: seq<Import>) {
    l.Succeeded(resolve) && TablesAre(l, blocks, ds) && KeepsOffHeaders(l, blocks, ds)
  }

  // ----- From stage to stage

  lemma Copied(l: Loading, resolve: Resolver)
    requires l.Succeeded(resolve) && HeadersApart(l.file, l.nt)
    ensures Agree(SectionsCopied(l.file, l.nt, l.Head(), l.codeBase).0, CopiedImage(l), l.Table(), l.End())
    ensures SectionsCopied(l.file, l.nt, l.Head(), l.codeBase).2.Copied?
    ensures HeadersHeld(l.file, l.nt, CopiedImage(l), PlacedSections(l), l.codeBase)
    ensures LocationDelta(CopiedImage(l), l.nt, l.Head()) == Distance(l)
  {
    hide SectionsMapped, SectionsCopied, LayoutOk, ImageSize, Relocated, WithImports, HeadersAt, HeadersHeld,
      FinalizedFrom, HeadersApart;
    MappedAsCopied(l.file, l.nt, l.codeBase);
    HeldTable(l.file, l.nt, CopiedImage(l), PlacedSections(l), l.codeBase);
  }

  lemma RelocationStage(l: Loading, resolve: Resolver, blocks: seq<Block>, ds: seq<Import>)
    requires Regular(l, resolve, blocks, ds)
    ensures var m1, m2 := CopiedImage(l), RelocatedImage(l);
      && AllWithin(m1, TableFixups(blocks)) && Patched(m1, m2, TableFixups(blocks), Distance(l))
      && HeadersHeld(l.file, l.nt, m2, PlacedSections(l), l.codeBase)
    ensures l.relocated <==> Distance(l) == 0 || l.Head().relocations.size != 0
  {
    hide SectionsMapped, SectionsCopied, LayoutOk, ImageSize, WithImports, HeadersAt, HeadersHeld, FinalizedFrom,
      R.Walk, HeadersApart, Relocatable, Patched, ImportsAt, SlotsApart, AllPatchable, TableFixups, TableApart,
      AllOutside, Same, LocationDelta, DirectoryAt, U16;
    Copied(l, resolve);
    var m1, m2, fs, delta := CopiedImage(l), RelocatedImage(l), TableFixups(blocks), Distance(l);
    HeldTable(l.file, l.nt, m1, PlacedSections(l), l.codeBase);
    if delta == 0 || l.Head().relocations.size == 0 {
      NoFixups(m1, delta);
    } else {
      RelocationPatchesSites(m1, l.Head().relocations, blocks, delta);
      SitesWithin(m1, l.Head().relocations, blocks);
    }
    PatchedKeeps(m1, m2, fs, delta, l.nt, l.Table(), l.End());
    AllHeld(l.file, l.nt, m1, m2, PlacedSections(l), l.codeBase);
  }

  lemma BehindFields(file: seq<byte>, nt: nat)
    requires HasHeaders(file, nt) && HeadersApart(file, nt)
    ensures nt + FIELDS_END <= TableStart(file, nt)
  {
    hide HeadersAt, HeaderByte;
  }

  lemma NoFixups(m: seq<byte>, delta: R.Delta)
    ensures TableFixups([]) == [] && AllWithin(m, []) && Patched(m, m, [], delta)
  {
  }

  lemma PatchedKeeps(m: seq<byte>, m': seq<byte>, fs: seq<Fixup>, delta: R.Delta, nt: nat, t: nat, end: nat)
    requires AllWithin(m, fs) && Patched(m, m', fs, delta) && t <= end <= |m|
    requires forall p | HeaderByte(p, nt, t, end) :: !Covered(fs, p)
    ensures KeepsHeaders(m, m', nt, t, end)
  {
    hide Patch, SiteBytes, Covered, HeaderByte;
  }

  lemma ImportStage(l: Loading, resolve: Resolver, blocks: seq<Block>, ds: seq<Import>)
    requires Regular(l, resolve, blocks, ds)
    ensures |l.loads| == |ds| && l.loads == LoadsOf(ds, HandlesOf(l.loads))
    ensures Bound(RelocatedImage(l), l.before, ds, HandlesOf(l.loads), resolve)
    ensures HeadersHeld(l.file, l.nt, l.before, PlacedSections(l), l.codeBase)
  {
    hide SectionsMapped, SectionsCopied, LayoutOk, ImageSize, HeadersAt, HeadersHeld, FinalizedFrom, Relocated,
      HandlesOf, HeadersApart, Relocatable, Patched, ImportsAt, DescriptorsAt, SlotsApart, TableFixups, AllOutside,
      Same, Bound, ImportFrom, DirectoryAt, U16;
    RelocationStage(l, resolve, blocks, ds);
    var m2, handles := RelocatedImage(l), HandlesOf(l.loads);
    HeldTable(l.file, l.nt, m2, PlacedSections(l), l.codeBase);
    if l.Head().imports.size == 0 {
      NoneBound(m2, handles, resolve);
    } else {
      TableRead(m2, l.Head().imports.virtualAddress, ds);
      OneLoadEach(m2, l.Head().imports.virtualAddress, ds, handles, resolve);
      ImportsResolve(m2, l.Head().imports.virtualAddress, ds, handles, resolve);
    }
    SlotsKeep(m2, l.before, ds, handles, resolve, l.nt, l.Table(), l.End());
    AllHeld(l.file, l.nt, m2, l.before, PlacedSections(l), l.codeBase);
  }

  lemma SlotsKeep(m: seq<byte>, m': seq<byte>, ds: seq<Import>, handles: seq<nat>, resolve: Resolver, nt: nat, t: nat,
      end: nat)
    requires |handles| == |ds| && Bound(m, m', ds, handles, resolve) && t <= end <= |m|
    requires forall p | HeaderByte(p, nt, t, end) :: !InSlots(ds, p)
    ensures KeepsHeaders(m, m', nt, t, end)
  {
    hide SlotsHold, InSlots, HeaderByte;
  }

  lemma FinalStage(l: Loading, resolve: Resolver, blocks: seq<Block>, ds: seq<Import>)
    requires Regular(l, resolve, blocks, ds)
    ensures Agree(l.before, l.image, l.Table(), l.End())
    ensures |PlacedSections(l)| > 0 && l.Head().sectionAlignment > 0
    ensures l.actions == PageActions(PlacedSections(l), ImageHeaderOf(l.Head(), l.codeBase))
    ensures var t, n := TableStart(l.file, l.nt), SectionCount(l.file, l.nt);
      && t + SECTION_HEADER * n <= |l.image|
      && SizedFrom(PlacedSections(l), Table(l.image, t, n), ImageHeaderOf(l.Head(), l.codeBase), 0)
  {
    hide SectionsMapped, SectionsCopied, LayoutOk, ImageSize, HeadersAt, HeadersHeld, Relocated, HandlesOf,
      WithImports, HeadersApart, PageActions, Passes, PassActions, Table, SizedFrom, LiveHeader, RealSize, TablesAre,
      U16;
    ImportStage(l, resolve, blocks, ds);
    NotEmpty(l.Head());
    BehindFields(l.file, l.nt);
    HeldTable(l.file, l.nt, l.before, PlacedSections(l), l.codeBase);
    HeldCounts(l.file, l.nt, l.before, PlacedSections(l), l.codeBase);
    AlignmentKept(l.Head(), l.codeBase);
    BaseHeld(l.file, l.nt, l.before, PlacedSections(l), l.codeBase);
    PassesActOnSections(l.before, l.nt, TableStart(l.file, l.nt), SectionCount(l.file, l.nt));
  }

  lemma HeldCounts(file: seq<byte>, nt: nat, m: seq<byte>, sections: seq<SectionHeader>, codeBase: Address)
    requires HasHeaders(file, nt) && HeadersHeld(file, nt, m, sections, codeBase)
    ensures nt + OPTIONAL_HEADER <= |m|
    ensures TableStart(m, nt) == TableStart(file, nt) && SectionCount(m, nt) == SectionCount(file, nt)
  {
  }

  lemma BaseHeld(file: seq<byte>, nt: nat, m: seq<byte>, sections: seq<SectionHeader>, codeBase: Address)
    requires HasHeaders(file, nt) && HeadersHeld(file, nt, m, sections, codeBase)
    ensures HasSections(m, nt, TableStart(file, nt), SectionCount(file, nt))
    ensures |sections| == SectionCount(file, nt)
  {
    hide Get, And;
  }

  lemma AlignmentKept(h: Headers, codeBase: Address)
    ensures ImageHeaderOf(h, codeBase).sectionAlignment == h.sectionAlignment
  {
  }

  // ----- Bytes and pointers of a loaded module

  /**
   A byte of a section that no fixup and no import slot covers is in the loaded module what it is in the file,
   or zero in a section without raw data.
  */
  lemma SectionBytesSurvive(l: Loading, resolve: Resolver, blocks: seq<Block>, ds: seq<Import>, k: nat, i: nat)
    requires Regular(l, resolve, blocks, ds) && AllDisjoint(l.Head().sections, l.Head().sectionAlignment)
    requires k < |l.Head().sections|
    requires var s := l.Head().sections[k];
      i < if s.sizeOfRawData == 0 then l.Head().sectionAlignment else s.sizeOfRawData
    requires var p := l.Head().sections[k].virtualAddress + i; !Covered(TableFixups(blocks), p) && !InSlots(ds, p)
    ensures var s := l.Head().sections[k];
      s.virtualAddress + i < |l.image| && IsByteOf(l.image[s.virtualAddress + i], s, l.file, i)
  {
    hide SectionsMapped, SectionsCopied, LayoutOk, ImageSize, HeadersAt, HeadersHeld, Relocated, WithImports,
      PageActions, FinalizedFrom, TableFixups, TablesAre, Covered, InSlots, HandlesOf, AllOutside, AllDisjoint,
      IsByteOf, SizedFrom;
    Copied(l, resolve);
    RelocationStage(l, resolve, blocks, ds);
    ImportStage(l, resolve, blocks, ds);
    FinalStage(l, resolve, blocks, ds);
    CopiedByte(l, resolve, k, i);
    var m1, m2 := CopiedImage(l), RelocatedImage(l);
    var p := l.Head().sections[k].virtualAddress + i;
    assert m2[p] == m1[p];
    assert l.before[p] == m2[p];
    assert l.image[p] == l.before[p];
  }

  /**
   Every other byte that is not read again as a header, whether sections overlap or not: it comes from the last section
   that is written to it, and without one from the headers of the file, or is zero behind them.
  */
  lemma EveryByteIsKnown(l: Loading, resolve: Resolver, blocks: seq<Block>, ds: seq<Import>, p: nat)
    requires Regular(l, resolve, blocks, ds) && p < |l.image|
    requires !Covered(TableFixups(blocks), p) && !InSlots(ds, p) && !HeaderByte(p, l.nt, l.Table(), l.End())
    ensures var h := l.Head();
      && h.sizeOfHeaders <= |l.file|
      && (forall k | 0 <= k < |h.sections| && LastOver(h.sections, h.sectionAlignment, p, 0, k) ::
            IsByteOf(l.image[p], h.sections[k], l.file, p - h.sections[k].virtualAddress))
      && (NoneOver(h.sections, h.sectionAlignment, p, 0) ==>
            l.image[p] == if p < h.sizeOfHeaders then l.file[p] else 0)
  {
    hide SectionsMapped, SectionsCopied, LayoutOk, ImageSize, HeadersAt, HeadersHeld, Relocated, WithImports,
      PageActions, FinalizedFrom, TableFixups, TablesAre, Covered, InSlots, HandlesOf, NoneOver, LastOver, IsByteOf,
      SizedFrom, FieldByte;
    Copied(l, resolve);
    RelocationStage(l, resolve, blocks, ds);
    ImportStage(l, resolve, blocks, ds);
    FinalStage(l, resolve, blocks, ds);
    MappedByte(l, resolve, p);
    var m1, m2 := CopiedImage(l), RelocatedImage(l);
    assert m2[p] == m1[p];
    assert l.before[p] == m2[p];
    assert l.image[p] == l.before[p];
  }

  lemma MappedByte(l: Loading, resolve: Resolver, p: nat)
    requires l.Succeeded(resolve) && HeadersApart(l.file, l.nt)
    requires p < |l.before| && !(l.Table() <= p < l.End()) && !FieldByte(p - l.nt)
    ensures var h, m := l.Head(), CopiedImage(l);
      && p < |m| && h.sizeOfHeaders <= |l.file|
      && (forall k | 0 <= k < |h.sections| && LastOver(h.sections, h.sectionAlignment, p, 0, k) ::
            IsByteOf(m[p], h.sections[k], l.file, p - h.sections[k].virtualAddress))
      && (NoneOver(h.sections, h.sectionAlignment, p, 0) ==> m[p] == if p < h.sizeOfHeaders then l.file[p] else 0)
  {
    hide CopyFrom, SectionsMapped, LayoutOk, ImageSize, BaseStored, HeadersAt, HeadersHeld, Relocated, WithImports,
      FinalizedFrom, NoneOver, LastOver, IsByteOf, HeadersApart, PlacedSections;
    var h := l.Head();
    NotEmpty(h);
    Copied(l, resolve);
    var m0 := BaseStored(l.file, l.nt, h, l.codeBase);
    LastWriterWins(m0, h.sections, 0, l.file, h.sectionAlignment, l.codeBase, p);
    BaseByteOf(l.file, l.nt, h, l.codeBase, p);
  }

  lemma BaseByteOf(file: seq<byte>, nt: nat, h: Headers, codeBase: Address, p: nat)
    requires Fits(file, nt, h) && p < ImageSize(h) && !FieldByte(p - nt)
    ensures BaseStored(file, nt, h, codeBase)[p] == if p < h.sizeOfHeaders then file[p] else 0
  {
    hide ImageSize, Le;
    SpliceAt(HeadersCopied(file, h), nt + IMAGE_BASE, Le(codeBase, 8));
  }

  lemma CopiedByte(l: Loading, resolve: Resolver, k: nat, i: nat)
    requires l.Succeeded(resolve) && HeadersApart(l.file, l.nt)
    requires AllDisjoint(l.Head().sections, l.Head().sectionAlignment)
    requires k < |l.Head().sections| && i < WriteLength(l.Head().sections[k], l.Head().sectionAlignment)
    ensures var s, m := l.Head().sections[k], CopiedImage(l);
      && s.virtualAddress + i < |m| && IsByteOf(m[s.virtualAddress + i], s, l.file, i)
      && !(l.Table() <= s.virtualAddress + i < l.End())
  {
    hide CopyFrom, SectionsMapped, LayoutOk, ImageSize, BaseStored, HeadersAt, HeadersHeld, AllDisjoint, Placed,
      Contents, Examine, Holds, WritesTo, Relocated, WithImports, FinalizedFrom, PlacedSections, Fits;
    var h := l.Head();
    NotEmpty(h);
    Copied(l, resolve);
    var m0 := BaseStored(l.file, l.nt, h, l.codeBase);
    SectionsHoldTheirContents(m0, h.sections, 0, l.file, h.sectionAlignment, l.codeBase);
    HeldByte(SectionsCopied(l.file, l.nt, h, l.codeBase).0, h.sections[k], l.file, h.sectionAlignment, i);
    ApartFromTable(l.file, l.nt);
    assert ClearOf(h.sections[k], h.sectionAlignment, l.Table(), l.End());
  }

  lemma HeldByte(m: seq<byte>, s: SectionHeader, file: seq<byte>, alignment: Word32, i: nat)
    requires Inside(s, alignment, |m|) && Examine(s, |file|).Copied? && Holds(m, s, file, alignment)
    requires i < WriteLength(s, alignment)
    ensures s.virtualAddress + i < |m| && IsByteOf(m[s.virtualAddress + i], s, file, i)
  {
    assert m[s.virtualAddress + i] == m[s.virtualAddress..EndOf(s, alignment)][i];
  }

  /** The import table was built, if there is one. */
  lemma TableBuilt(l: Loading, resolve: Resolver, blocks: seq<Block>, ds: seq<Import>)
    requires l.Succeeded(resolve) && TablesAre(l, blocks, ds)
    requires HeadersHeld(l.file, l.nt, RelocatedImage(l), PlacedSections(l), l.codeBase)
    ensures ds == [] || ImportedFrom(RelocatedImage(l), l.Head().imports.virtualAddress, ds, l.before, l.loads, resolve)
  {
    hide SectionsMapped, LayoutOk, ImageSize, HeadersAt, HeadersHeld, Relocated, Relocatable, SlotsApart,
      FinalizedFrom, DescriptorsAt, ImportFrom, DirectoryAt, HandlesOf;
    HeldTable(l.file, l.nt, RelocatedImage(l), PlacedSections(l), l.codeBase);
  }

  ghost predicate ImportedFrom(m: seq<byte>, pos: nat, ds: seq<Import>, before: seq<byte>, loads: seq<Load>,
      resolve: Resolver)
  {
    && DescriptorsAt(m, pos, ds) && SlotsApart(m, pos, ds)
    && (before, Resolved, loads) == ImportFrom(m, pos, HandlesOf(loads), resolve)
  }

  lemma AskedAndBound(m: seq<byte>, pos: nat, ds: seq<Import>, before: seq<byte>, loads: seq<Load>, resolve: Resolver,
      k: nat)
    requires ImportedFrom(m, pos, ds, before, loads, resolve) && k < |ds| == |loads|
    ensures loads[k].handle != 0 && Imported(m, before, pos + 20 * k, ds[k], loads[k], loads[k].handle, resolve)
    ensures pos + 20 * k + 20 <= |m| && ds[k].slots == U32(m, pos + 20 * k + 16)
  {
    hide SlotsApart, AllAnswered, Imported, DescriptorsAt, ImportFrom, InSlots, U32;
    ImportedAsAsked(m, pos, ds, HandlesOf(loads), resolve);
    SlotsField(m, pos, ds, k);
  }

  /**
   The libraries the image asks for were loaded in order by their names, and every slot of the loaded module holds the
   address of what the thunk at its index asks for.
  */
  lemma LoadedAsAsked(l: Loading, resolve: Resolver, blocks: seq<Block>, ds: seq<Import>, k: nat)
    requires Regular(l, resolve, blocks, ds) && k < |ds|
    ensures |l.loads| == |ds| && l.loads[k].handle != 0
    ensures Imported(RelocatedImage(l), l.image, l.Head().imports.virtualAddress + 20 * k, ds[k], l.loads[k],
      l.loads[k].handle, resolve)
  {
    hide SectionsMapped, Relocated, WithImports, LayoutOk, ImageSize, HeadersAt, FinalizedFrom, TablesAre, Imported,
      HeadersApart, Fits, RelocatedImage, U32, PageActions, SizedFrom, InSlots, HeaderByte, ImportedFrom, HeadersHeld;
    RelocationStage(l, resolve, blocks, ds);
    ImportStage(l, resolve, blocks, ds);
    FinalStage(l, resolve, blocks, ds);
    TableBuilt(l, resolve, blocks, ds);
    SlotsSurvive(l, blocks, ds, k);
    var m2, pos := RelocatedImage(l), l.Head().imports.virtualAddress;
    AskedAndBound(m2, pos, ds, l.before, l.loads, resolve, k);
    ImportedKept(m2, l.before, l.image, pos + 20 * k, ds[k], l.loads[k], resolve);
  }

  /** No slot lies on the section headers, which are all that finalization writes to. */
  lemma SlotsSurvive(l: Loading, blocks: seq<Block>, ds: seq<Import>, k: nat)
    requires l.HasFile() && KeepsOffHeaders(l, blocks, ds) && k < |ds| && Agree(l.before, l.image, l.Table(), l.End())
    ensures forall p | ds[k].slots <= p < SlotsEnd(ds[k]) && p < |l.image| :: l.image[p] == l.before[p]
  {
    hide HeadersApart, FieldByte;
    forall p | ds[k].slots <= p < SlotsEnd(ds[k]) && p < |l.image| ensures l.image[p] == l.before[p] {
      assert InSlots(ds, p);
      assert !HeaderByte(p, l.nt, l.Table(), l.End());
    }
  }

  /** The w bytes at p hold the address of rva in an image at base. */
  predicate HoldsAddress(m: seq<byte>, p: nat, w: nat, base: Address, rva: nat) {
    && p + w <= |m|
    && match w
       case 4 => U32(m, p) == (base + rva) % 0x1_0000_0000
       case 8 => U64(m, p) == (base + rva) % 0x1_0000_0000_0000_0000
       case _ => false
  }

  predicate NoSlotIn(ds: seq<Import>, p: nat, w: nat) {
    forall q | p <= q < p + w :: !InSlots(ds, q)
  }

  /**
   An address that the 8 (or 4) bytes of a site listed with kind 10 (or 3) hold for the preferred base of the file is in
   the loaded module an address for the base it got, if no import slot covers it.
  */
  lemma PointersFollowTheBase(l: Loading, resolve: Resolver, blocks: seq<Block>, ds: seq<Import>, i: nat, rva: nat)
    requires Regular(l, resolve, blocks, ds) && i < |TableFixups(blocks)|
    ensures var Fixup(p, kind) := TableFixups(blocks)[i];
      && (kind == 10 && NoSlotIn(ds, p, 8) && HoldsAddress(CopiedImage(l), p, 8, l.Head().imageBase, rva) ==>
            HoldsAddress(l.image, p, 8, l.codeBase, rva))
      && (kind == 3 && NoSlotIn(ds, p, 4) && HoldsAddress(CopiedImage(l), p, 4, l.Head().imageBase, rva) ==>
            HoldsAddress(l.image, p, 4, l.codeBase, rva))
  {
    hide SectionsMapped, SectionsCopied, LayoutOk, ImageSize, HeadersAt, HeadersHeld, WithImports, PageActions, Get,
      FinalizedFrom, TableFixups, InSlots, HandlesOf, SizedFrom, Relocatable, R.Relocate, Patched, SlotsHold,
      DirectoryAt, ImportsAt, SlotsApart, AllWithin, HeadersApart, LocationDelta;
    Copied(l, resolve);
    RelocationStage(l, resolve, blocks, ds);
    ImportStage(l, resolve, blocks, ds);
    FinalStage(l, resolve, blocks, ds);
    var m1, m2, f := CopiedImage(l), RelocatedImage(l), TableFixups(blocks)[i];
    NoFixups(m1, Distance(l));
    HeldTable(l.file, l.nt, m1, PlacedSections(l), l.codeBase);
    RelocatedFully(m1, l.Head().relocations, Distance(l));
    AddressesFollowTheImage(m1, l.Head().relocations, blocks, i, l.Head().imageBase, l.codeBase, rva);
    SiteOffHeaders(l, blocks, ds, i);
    if f.kind == 10 && NoSlotIn(ds, f.site, 8) && f.site + 8 <= |m1| {
      SameElsewhere(m2, l.before, l.image, f.site, 8, ds, l.nt, l.Table(), l.End());
    }
    if f.kind == 3 && NoSlotIn(ds, f.site, 4) && f.site + 4 <= |m1| {
      SameElsewhere(m2, l.before, l.image, f.site, 4, ds, l.nt, l.Table(), l.End());
    }
  }

  lemma RelocatedFully(m: seq<byte>, directory: R.Directory, delta: R.Delta)
    ensures directory.size != 0 && R.Relocate(m, directory, delta).1.Done? ==>
      R.Relocate(m, directory, delta).1 == R.Done(true)
  {
    hide R.Walk;
  }

  lemma SiteOffHeaders(l: Loading, blocks: seq<Block>, ds: seq<Import>, i: nat)
    requires l.HasFile() && KeepsOffHeaders(l, blocks, ds) && i < |TableFixups(blocks)|
    ensures var f := TableFixups(blocks)[i];
      forall p | f.site <= p < f.site + Width(f.kind) :: !HeaderByte(p, l.nt, l.Table(), l.End())
  {
    hide HeadersApart, TableFixups, FieldByte;
    var fs := TableFixups(blocks);
    forall p | fs[i].site <= p < fs[i].site + Width(fs[i].kind) ensures !HeaderByte(p, l.nt, l.Table(), l.End()) {
      assert Covers(fs[i], p);
      assert Covered(fs, p);
    }
  }

  lemma SameElsewhere(m: seq<byte>, before: seq<byte>, image: seq<byte>, p: nat, w: nat, ds: seq<Import>, nt: nat,
      t: nat, end: nat)
    requires |before| == |m| && p + w <= |m| && Agree(before, image, t, end)
    requires forall q | p <= q < p + w :: !HeaderByte(q, nt, t, end)
    requires forall q | 0 <= q < |m| && !InSlots(ds, q) :: before[q] == m[q]
    requires forall q | p <= q < p + w :: !InSlots(ds, q)
    ensures Get(image, p, w) == Get(m, p, w)
  {
    hide InSlots, FieldByte;
    forall q | p <= q < p + w ensures image[q] == m[q] {
      assert !HeaderByte(q, nt, t, end);
      assert !InSlots(ds, q);
    }
    assert image[p..p + w] == m[p..p + w];
  }

  // ----- Page actions on the loaded sections

  /** Section headers after copying, whether the sections overlap or not. */
  lemma {:induction false} HeadersArePlaced(m: seq<byte>, sections: seq<SectionHeader>, i: nat, file: seq<byte>,
      alignment: Word32, codeBase: nat)
    requires i <= |sections| && AllInside(sections, alignment, |m|)
    requires CopyFrom(m, sections, i, file, alignment, codeBase).2.Copied?
    ensures var placed := CopyFrom(m, sections, i, file, alignment, codeBase).1;
      forall k | 0 <= k < |sections| ::
        placed[k] == if k < i then sections[k] else Placed(sections[k], alignment, codeBase)
    decreases |sections| - i
  {
    hide Examine, Contents, Placed, CopyOne;
    if i == |sections| {
    } else {
      PlacedKeeps(sections[i], alignment, codeBase);
      var sections1 := sections[i := Placed(sections[i], alignment, codeBase)];
      HeadersArePlaced(CopyOne(m, sections[i], file, alignment), sections1, i + 1, file, alignment, codeBase);
    }
  }

  /** The section k of a module loaded at codeBase, as finalizeSections should see it. */
  function TrueExtent(h: Headers, codeBase: Address, k: nat): Extent
    requires k < |h.sections|
  {
    var s := h.sections[k];
    Extent(codeBase + s.virtualAddress, RealSize(s, ImageHeaderOf(h, 0)), s.characteristics)
  }

  /** Sections in ascending order that start on pages and do not run into one another. */
  predicate WellPlaced(h: Headers) {
    && (forall i | 0 <= i < |h.sections| && h.sections[i].sizeOfRawData != 0 ::
          h.sections[i].virtualAddress % PAGE == 0)
    && (forall i, j | 0 <= i < j < |h.sections| ::
          TrueExtent(h, 0, i).End() <= TrueExtent(h, 0, j).address)
  }

  function TrueExtents(h: Headers, codeBase: Address): (es: seq<Extent>)
    ensures |es| == |h.sections|
    ensures forall k | 0 <= k < |es| :: es[k] == TrueExtent(h, codeBase, k)
  {
    seq(|h.sections|, k requires 0 <= k < |h.sections| => TrueExtent(h, codeBase, k))
  }

  /**
   The boundary check, the layout check and the truncation to 32 bits together: finalizeSections works on
   the true addresses of the sections, although the headers have room for half of each address only.
  */
  lemma FinalizesTrueAddresses(file: seq<byte>, nt: nat, h: Headers, codeBase: Address)
    requires LayoutOk(h.sections, h.sizeOfImage, h.sectionAlignment) && 0 < ImageSize(h) && Fits(file, nt, h)
    requires SectionsCopied(file, nt, h, codeBase).2.Copied? && WellPlaced(h) && InOneBlock(codeBase, ImageSize(h))
    ensures Extents(SectionsCopied(file, nt, h, codeBase).1, ImageHeaderOf(h, codeBase)) == TrueExtents(h, codeBase)
    ensures Ascending(TrueExtents(h, codeBase))
  {
    hide LayoutOk, ImageSize, BaseStored, CopyFrom, Recovered, RealSize, CrossesBoundary;
    NotEmpty(h);
    HeadersArePlaced(BaseStored(file, nt, h, codeBase), h.sections, 0, file, h.sectionAlignment, codeBase);
    var placed := SectionsCopied(file, nt, h, codeBase).1;
    var es := Extents(placed, ImageHeaderOf(h, codeBase));
    forall k | 0 <= k < |es| ensures es[k] == TrueExtent(h, codeBase, k) {
      var s := h.sections[k];
      assert Inside(s, h.sectionAlignment, ImageSize(h));
      AddressesAreRecovered(s, h.sectionAlignment, codeBase, ImageSize(h));
      SizeIsKept(s, h, codeBase);
    }
    TrueExtentsAscend(h, codeBase);
  }

  lemma TrueExtentsAscend(h: Headers, codeBase: Address)
    requires WellPlaced(h) && codeBase <= USER_LIMIT
    ensures Ascending(TrueExtents(h, codeBase))
  {
    hide RealSize;
    var es := TrueExtents(h, codeBase);
    forall i, j | 0 <= i < j < |es| ensures es[i].End() <= es[j].address {
      assert TrueExtent(h, 0, i).End() <= TrueExtent(h, 0, j).address;
    }
  }

  lemma SizeIsKept(s: SectionHeader, h: Headers, codeBase: Address)
    ensures var placed := Placed(s, h.sectionAlignment, codeBase);
      && RealSize(placed, ImageHeaderOf(h, codeBase)) == RealSize(s, ImageHeaderOf(h, 0))
      && placed.characteristics == s.characteristics
  {
    hide LowHalf;
  }

  /** The page actions of a loaded module are those of the groups of its sections at their true addresses. */
  lemma ActsOnTrueExtents(l: Loading, resolve: Resolver, blocks: seq<Block>, ds: seq<Import>)
    requires Regular(l, resolve, blocks, ds) && WellPlaced(l.Head()) && InOneBlock(l.codeBase, ImageSize(l.Head()))
    ensures var es, a := TrueExtents(l.Head(), l.codeBase), l.Head().sectionAlignment;
      && |es| > 0 && a > 0
      && l.actions == Actions(Runs(es, a), a) && Ascending(es)
  {
    hide SectionsCopied, SectionsMapped, LayoutOk, ImageSize, CrossesBoundary, WellPlaced, Runs, Ascending,
      WithImports, Relocated, Actions, Extents, TrueExtents, HeadersAt, FinalizedFrom, TablesAre, HeadersApart,
      SizedFrom, InOneBlock, Agree;
    Copied(l, resolve);
    FinalStage(l, resolve, blocks, ds);
    FinalizesTrueAddresses(l.file, l.nt, l.Head(), l.codeBase);
  }

  /**
   A loaded module whose sections start on pages and whose alignment is a power of two and a multiple of the
   page size has its pages treated by groups that partition its sections at their true addresses, and no page
   that holds a byte of a section without the DISCARDABLE flag is given back.
  */
  lemma LoadedPagesAreSafe(l: Loading, resolve: Resolver, blocks: seq<Block>, ds: seq<Import>)
    requires Regular(l, resolve, blocks, ds) && WellPlaced(l.Head()) && InOneBlock(l.codeBase, ImageSize(l.Head()))
    requires PowerOfTwo(l.Head().sectionAlignment) && l.Head().sectionAlignment % PAGE == 0
    ensures var es, a := TrueExtents(l.Head(), l.codeBase), l.Head().sectionAlignment;
      && |es| > 0 && a > 0
      && l.actions == Actions(Runs(es, a), a)
      && Partitions(Runs(es, a), es, 0, a)
      && DecommitsSafely(es, a)
  {
    hide LayoutOk, ImageSize, CrossesBoundary, WellPlaced, PowerOfTwo, Runs, Ascending, DecommitsSafely, Partitions,
      Actions, TrueExtents, HeadersAt, ImageBuilt, FinalizedFrom, TablesAre, KeepsOffHeaders, InOneBlock, HasHeaders;
    ActsOnTrueExtents(l, resolve, blocks, ds);
    RunsPartition(TrueExtents(l.Head(), l.codeBase), l.Head().sectionAlignment);
    SafeForAll(TrueExtents(l.Head(), l.codeBase), l.Head().sectionAlignment);
  }
}
