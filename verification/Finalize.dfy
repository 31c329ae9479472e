/** finalizeSections: recovering addresses, grouping sections by page, protecting and decommitting. */
module Finalize {
  import opened Bytes
  import opened Words
  import opened Os
  import opened PeHeaders
  import opened Sections

  const CNT_INITIALIZED_DATA: bv32 := 0x0000_0040
  const CNT_UNINITIALIZED_DATA: bv32 := 0x0000_0080
  const MEM_DISCARDABLE: bv32 := 0x0200_0000
  const MEM_NOT_CACHED: bv32 := 0x0400_0000
  const MEM_EXECUTE: bv32 := 0x2000_0000
  const MEM_READ: bv32 := 0x4000_0000
  const MEM_WRITE: bv32 := 0x8000_0000

  const PAGE_NOCACHE: nat := 0x200

  datatype ImageHeader = ImageHeader(imageBase: Address, sectionAlignment: Word32,
    sizeOfInitializedData: Word32, sizeOfUninitializedData: Word32)

  /** The upper half of the image base. */
  function ImageOffset(imageBase: Address): nat {
    And(imageBase, 0xffff_ffff_0000_0000)
  }

  /** The address of a section, expanded from the 32 bits its header has room for. */
  function Recovered(s: SectionHeader, imageBase: Address): nat {
    Or(s.misc, ImageOffset(imageBase))
  }

  predicate Has(flags: bv32, flag: bv32) { flags & flag != 0 }

  function RealSize(s: SectionHeader, h: ImageHeader): Word32 {
    if s.sizeOfRawData != 0 then s.sizeOfRawData
    else if Has(s.characteristics, CNT_INITIALIZED_DATA) then h.sizeOfInitializedData
    else if Has(s.characteristics, CNT_UNINITIALIZED_DATA) then h.sizeOfUninitializedData
    else 0
  }

  /** The size that counts, with the flags for initialized and uninitialized data as the format numbers them. */
  lemma SizeIs(s: SectionHeader, h: ImageHeader)
    ensures RealSize(s, h) ==
      if s.sizeOfRawData != 0 then s.sizeOfRawData
      else if s.characteristics & 0x40 != 0 then h.sizeOfInitializedData
      else if s.characteristics & 0x80 != 0 then h.sizeOfUninitializedData
      else 0
  {
  }

  /** A section as finalizeSections sees it. */
  datatype Extent = Extent(address: nat, size: nat, flags: bv32) {
    function End(): nat { address + size }
    predicate Discardable() { Has(flags, MEM_DISCARDABLE) }
  }

  function ExtentOf(s: SectionHeader, h: ImageHeader): Extent {
    Extent(Recovered(s, h.imageBase), RealSize(s, h), s.characteristics)
  }

  function Extents(sections: seq<SectionHeader>, h: ImageHeader): (es: seq<Extent>)
    ensures |es| == |sections|
    ensures forall i | 0 <= i < |es| :: es[i] == ExtentOf(sections[i], h)
  {
    seq(|sections|, i requires 0 <= i < |sections| => ExtentOf(sections[i], h))
  }

  // ----- Grouping

  datatype SectionData = SectionData(address: nat, alignedAddress: nat, size: nat, flags: bv32, last: bool)

  /** The data handed to finalizeSection for sections lo..hi. */
  datatype Run = Run(data: SectionData, lo: nat, hi: nat)

  function Start(e: Extent, alignment: Word32): SectionData {
    SectionData(e.address, AlignDown(e.address, alignment), e.size, e.flags, false)
  }

  predicate SharesPage(g: SectionData, e: Extent, alignment: Word32) {
    var aligned := AlignDown(e.address, alignment);
    g.alignedAddress == aligned || (g.address + g.size) % W64 > aligned
  }

  function Union(a: bv32, b: bv32): bv32 { a | b }

  /** flags with DISCARDABLE cleared. */
  function Without(flags: bv32): bv32 { flags & 0xfdff_ffff }

  function MergedFlags(a: bv32, b: bv32): bv32 {
    if !Has(b, MEM_DISCARDABLE) || !Has(a, MEM_DISCARDABLE) then Without(Union(a, b)) else Union(a, b)
  }

  function Merge(g: SectionData, e: Extent): SectionData {
    g.(flags := MergedFlags(g.flags, e.flags), size := (e.address + e.size - g.address) % W64)
  }

  /** The runs from section i on, when g describes sections lo..i. */
  function RunsFrom(es: seq<Extent>, i: nat, g: SectionData, lo: nat, alignment: Word32): (rs: seq<Run>)
    requires i <= |es|
    ensures |rs| > 0
    decreases |es| - i
  {
    if i == |es| then [Run(g.(last := true), lo, i)]
    else if SharesPage(g, es[i], alignment) then RunsFrom(es, i + 1, Merge(g, es[i]), lo, alignment)
    else [Run(g, lo, i)] + RunsFrom(es, i + 1, Start(es[i], alignment), i, alignment)
  }

  function Runs(es: seq<Extent>, alignment: Word32): seq<Run>
    requires |es| > 0
  {
    RunsFrom(es, 1, Start(es[0], alignment), 0, alignment)
  }

  // ----- What is done with a run

  /** Page protection by the top three flags: write, read, execute. */
  function Protection(flags: bv32): nat {
    var table := [0x01, 0x10, 0x02, 0x20, 0x08, 0x80, 0x04, 0x40];
    var index := (if Has(flags, MEM_WRITE) then 4 else 0) + (if Has(flags, MEM_READ) then 2 else 0)
      + (if Has(flags, MEM_EXECUTE) then 1 else 0);
    table[index] + if Has(flags, MEM_NOT_CACHED) then PAGE_NOCACHE else 0
  }

  // The rights the protection constants of Windows grant; the copy-on-write constants 0x08 and 0x80 grant reading
  // as well as writing, and PAGE_NOCACHE is a bit of its own.

  function Rights(protection: nat): nat { protection % PAGE_NOCACHE }

  predicate Executes(protection: nat) { Rights(protection) in {0x10, 0x20, 0x40, 0x80} }

  predicate Reads(protection: nat) { Rights(protection) in {0x02, 0x20, 0x04, 0x40, 0x08, 0x80} }

  predicate Writes(protection: nat) { Rights(protection) in {0x08, 0x80, 0x04, 0x40} }

  predicate Uncached(protection: nat) { protection >= PAGE_NOCACHE }

  /**
   The table grants the rights the flags ask for, and no other but reading to whoever may write: Windows has no
   protection that is writeable only.
  */
  lemma ProtectionGrants(flags: bv32)
    ensures var p := Protection(flags);
      && (Executes(p) <==> Has(flags, MEM_EXECUTE))
      && (Reads(p) <==> Has(flags, MEM_READ) || Has(flags, MEM_WRITE))
      && (Writes(p) <==> Has(flags, MEM_WRITE))
      && (Uncached(p) <==> Has(flags, MEM_NOT_CACHED))
  {
    hide Has;
  }

  /** finalizeSection divides by an alignment of zero: a run-time panic. */
  predicate DividesByZero(g: SectionData, alignment: Word32) {
    alignment == 0 && g.size != 0 && Has(g.flags, MEM_DISCARDABLE) && g.address == g.alignedAddress && !g.last
  }

  function Action(g: SectionData, alignment: Word32): (a: seq<PageAction>)
    requires !DividesByZero(g, alignment)
    ensures |a| <= 1
  {
    if g.size == 0 then []
    else if Has(g.flags, MEM_DISCARDABLE) then
      if g.address == g.alignedAddress && (g.last || g.size % alignment == 0) then [Decommit(g.address, g.size)] else []
    else [Protect(g.address, g.size, Protection(g.flags))]
  }

  function Actions(rs: seq<Run>, alignment: Word32): seq<PageAction>
    requires alignment > 0
  {
    if rs == [] then [] else Action(rs[0].data, alignment) + Actions(rs[1..], alignment)
  }

  /** Everything that is done to the pages of the image. */
  function PageActions(sections: seq<SectionHeader>, h: ImageHeader): seq<PageAction>
    requires |sections| > 0 && h.sectionAlignment > 0
  {
    Actions(Runs(Extents(sections, h), h.sectionAlignment), h.sectionAlignment)
  }

  // ----- The code, on headers that lie in the image

  /** The header fields finalizeSections reads at each section; the base is read once, at the start. */
  function LiveHeader(m: seq<byte>, nt: nat, base: Address): ImageHeader
    requires nt + SECTION_ALIGNMENT + 4 <= |m|
  {
    ImageHeader(base, Dword(m, nt + SECTION_ALIGNMENT), Dword(m, nt + SIZE_OF_INITIALIZED_DATA),
      Dword(m, nt + SIZE_OF_UNINITIALIZED_DATA))
  }

  /** The extent of the section whose header lies at p, read before its size replaces its address. */
  function VisitedExtent(m: seq<byte>, nt: nat, p: nat, base: Address): Extent
    requires nt + SECTION_ALIGNMENT + 4 <= |m| && p + SECTION_HEADER <= |m|
  {
    ExtentOf(SectionAt(m, p), LiveHeader(m, nt, base))
  }

  function Visited(m: seq<byte>, nt: nat, p: nat, base: Address): (r: seq<byte>)
    requires nt + SECTION_ALIGNMENT + 4 <= |m| && p + SECTION_HEADER <= |m|
    ensures |r| == |m|
  {
    Set(m, p + MISC, 4, RealSize(SectionAt(m, p), LiveHeader(m, nt, base)))
  }

  /** A call of finalizeSection: the group it is handed, and alignment and memory at that time. */
  datatype Pass = Pass(run: Run, alignment: Word32, memory: seq<byte>)

  /** The image has the fields and section headers that finalizeSections touches. */
  predicate HasSections(m: seq<byte>, nt: nat, t: nat, n: nat) {
    nt + SECTION_ALIGNMENT + 4 <= |m| && t + SECTION_HEADER * n <= |m|
  }

  /** The calls from section i on, when g describes sections lo..i. */
  function PassesFrom(m: seq<byte>, nt: nat, t: nat, n: nat, base: Address, i: nat, g: SectionData, lo: nat)
    : (ps: seq<Pass>)
    requires HasSections(m, nt, t, n) && i <= n
    ensures |ps| > 0
    ensures forall k | 0 <= k < |ps| :: |ps[k].memory| == |m|
    decreases n - i
  {
    var a := Dword(m, nt + SECTION_ALIGNMENT);
    if i == n then [Pass(Run(g.(last := true), lo, i), a, m)]
    else
      var p := t + SECTION_HEADER * i;
      var e := VisitedExtent(m, nt, p, base);
      var m1 := Visited(m, nt, p, base);
      if SharesPage(g, e, a) then PassesFrom(m1, nt, t, n, base, i + 1, Merge(g, e), lo)
      else
        [Pass(Run(g, lo, i), Dword(m1, nt + SECTION_ALIGNMENT), m1)]
        + PassesFrom(m1, nt, t, n, base, i + 1, Start(e, a), i)
  }

  function Passes(m: seq<byte>, nt: nat, t: nat, n: nat): (ps: seq<Pass>)
    requires HasSections(m, nt, t, n) && n > 0
    ensures |ps| > 0
    ensures forall k | 0 <= k < |ps| :: |ps[k].memory| == |m|
  {
    var base := Qword(m, nt + IMAGE_BASE);
    PassesFrom(Visited(m, nt, t, base), nt, t, n, base, 1,
      Start(VisitedExtent(m, nt, t, base), Dword(m, nt + SECTION_ALIGNMENT)), 0)
  }

  /** No call divides by zero. */
  predicate AllDivide(ps: seq<Pass>) {
    forall k | 0 <= k < |ps| :: !DividesByZero(ps[k].run.data, ps[k].alignment)
  }

  function PassActions(ps: seq<Pass>): seq<PageAction>
    requires AllDivide(ps)
  {
    if ps == [] then [] else
    var n := |ps| - 1;
    PassActions(ps[..n]) + Action(ps[n].run.data, ps[n].alignment)
  }

  datatype FinalizeResult = Finalized | ProtectFailed | DivisionByZero

  method FinalizeSection(g: SectionData, image: array<byte>, nt: nat, os: OperatingSystem) returns (r: FinalizeResult)
    requires nt + SECTION_ALIGNMENT + 4 <= image.Length
    modifies os`actions, os`refusals
    ensures os.refusals == if r.ProtectFailed? then
        old(os.refusals) + [NotProtected(g.address, g.size, Protection(g.flags))]
      else old(os.refusals)
    ensures var a := Dword(image[..], nt + SECTION_ALIGNMENT);
      && (r.DivisionByZero? <==> DividesByZero(g, a))
      && (r.Finalized? ==> os.actions == old(os.actions) + Action(g, a))
    ensures !r.Finalized? ==> os.actions == old(os.actions)
  {
    hide Protection, Has, Dword;
    if g.size == 0 {
      return Finalized;
    }
    if Has(g.flags, MEM_DISCARDABLE) {
      if g.address == g.alignedAddress {
        var whole := g.last;
        if !whole {
          var a := Dword(image[..], nt + SECTION_ALIGNMENT);
          if a == 0 {
            return DivisionByZero;
          }
          whole := g.size % a == 0;
        }
        if whole {
          os.VirtualDecommit(g.address, g.size);
        }
      }
      return Finalized;
    }
    var ok := os.VirtualProtect(g.address, g.size, Protection(g.flags));
    r := if ok then Finalized else ProtectFailed;
  }

  /**
   What is left when finalizeSections ends: the first `done` calls have been acted on. When one fails, it is the next,
   and the image is as it was at that call, with sizes in the headers the loop has passed.
  */
  ghost predicate ActedOn(ps: seq<Pass>, done: nat, r: FinalizeResult, image: seq<byte>, before: seq<PageAction>,
      actions: seq<PageAction>)
  {
    && done <= |ps| && AllDivide(ps[..done])
    && actions == before + PassActions(ps[..done])
    && (r.Finalized? ==> done == |ps| > 0 && image == ps[done - 1].memory)
    && (!r.Finalized? ==> done < |ps| && image == ps[done].memory)
    && (r.DivisionByZero? <==> done < |ps| && DividesByZero(ps[done].run.data, ps[done].alignment))
  }

  /** The calls in passed have been acted on, those in rest are to come. */
  ghost predicate Underway(ps: seq<Pass>, passed: seq<Pass>, rest: seq<Pass>, before: seq<PageAction>,
      actions: seq<PageAction>)
  {
    ps == passed + rest && AllDivide(passed) && actions == before + PassActions(passed)
  }

  method FinalizeSections(image: array<byte>, nt: nat, t: nat, n: nat, os: OperatingSystem)
    returns (r: FinalizeResult, ghost done: nat)
    requires HasSections(image[..], nt, t, n) && n > 0
    modifies image, os`actions, os`refusals
    ensures if r.ProtectFailed? then |os.refusals| > |old(os.refusals)| else os.refusals == old(os.refusals)
    ensures ActedOn(Passes(old(image[..]), nt, t, n), done, r, image[..], old(os.actions), os.actions)
  {
    hide PassesFrom, SharesPage, Merge, Start, VisitedExtent, Visited, DividesByZero, Action, Qword, Dword, ActedOn,
      Underway;
    var base := Qword(image[..], nt + IMAGE_BASE);
    var a := Dword(image[..], nt + SECTION_ALIGNMENT);
    var e := Visit(image, nt, t, base);
    var data := Start(e, a);
    ghost var lo, passed := 0, [];
    ghost var ps := Passes(old(image[..]), nt, t, n);
    NothingPassed(ps, os.actions);
    var i := 1;
    while i < n
      invariant 1 <= i <= n && HasSections(image[..], nt, t, n) && os.refusals == old(os.refusals)
      invariant Underway(ps, passed, PassesFrom(image[..], nt, t, n, base, i, data, lo), old(os.actions), os.actions)
    {
      ghost var rest := PassesFrom(image[..], nt, t, n, base, i, data, lo);
      PassStep(image[..], nt, t, n, base, i, data, lo);
      a := Dword(image[..], nt + SECTION_ALIGNMENT);
      e := Visit(image, nt, t + SECTION_HEADER * i, base);
      if SharesPage(data, e, a) {
        data := Merge(data, e);
      } else {
        ghost var actions := os.actions;
        r := FinalizeSection(data, image, nt, os);
        if !r.Finalized? {
          done := StopsHere(ps, passed, rest, r, old(os.actions), os.actions);
          return;
        }
        PassDone(ps, passed, rest, old(os.actions), actions);
        passed := passed + [rest[0]];
        data := Start(e, a);
        lo := i;
      }
      i := i + 1;
    }
    LastPass(image[..], nt, t, n, base, data, lo);
    ghost var rest, actions := PassesFrom(image[..], nt, t, n, base, n, data, lo), os.actions;
    data := data.(last := true);
    r := FinalizeSection(data, image, nt, os);
    if r.Finalized? {
      PassDone(ps, passed, rest, old(os.actions), actions);
      done := AllPassed(ps, passed + rest, old(os.actions), os.actions);
    } else {
      done := StopsHere(ps, passed, rest, r, old(os.actions), os.actions);
    }
  }

  lemma NothingPassed(ps: seq<Pass>, actions: seq<PageAction>)
    ensures Underway(ps, [], ps, actions, actions)
  {
  }

  lemma StopsHere(ps: seq<Pass>, passed: seq<Pass>, rest: seq<Pass>, r: FinalizeResult, before: seq<PageAction>,
      actions: seq<PageAction>) returns (done: nat)
    requires Underway(ps, passed, rest, before, actions) && rest != [] && !r.Finalized?
    requires r.DivisionByZero? <==> DividesByZero(rest[0].run.data, rest[0].alignment)
    ensures ActedOn(ps, done, r, rest[0].memory, before, actions)
  {
    hide DividesByZero;
    done := |passed|;
    assert ps[..done] == passed;
  }

  lemma PassDone(ps: seq<Pass>, passed: seq<Pass>, rest: seq<Pass>, before: seq<PageAction>, actions: seq<PageAction>)
    requires Underway(ps, passed, rest, before, actions)
    requires rest != [] && !DividesByZero(rest[0].run.data, rest[0].alignment)
    ensures Underway(ps, passed + [rest[0]], rest[1..], before, actions + Action(rest[0].run.data, rest[0].alignment))
  {
    hide Action, DividesByZero;
    assert (passed + [rest[0]])[..|passed|] == passed;
  }

  lemma AllPassed(ps: seq<Pass>, passed: seq<Pass>, before: seq<PageAction>, actions: seq<PageAction>)
    returns (done: nat)
    requires Underway(ps, passed, [], before, actions) && passed != []
    ensures ActedOn(ps, done, Finalized, passed[|passed| - 1].memory, before, actions)
  {
    hide DividesByZero;
    done := |passed|;
    assert ps[..done] == passed;
  }

  lemma PassStep(m: seq<byte>, nt: nat, t: nat, n: nat, base: Address, i: nat, g: SectionData, lo: nat)
    requires HasSections(m, nt, t, n) && i < n
    ensures var a, p := Dword(m, nt + SECTION_ALIGNMENT), t + SECTION_HEADER * i;
      var e, m1 := VisitedExtent(m, nt, p, base), Visited(m, nt, p, base);
      var ps := PassesFrom(m, nt, t, n, base, i, g, lo);
      if SharesPage(g, e, a) then ps == PassesFrom(m1, nt, t, n, base, i + 1, Merge(g, e), lo)
      else
        && ps[0] == Pass(Run(g, lo, i), Dword(m1, nt + SECTION_ALIGNMENT), m1)
        && ps[1..] == PassesFrom(m1, nt, t, n, base, i + 1, Start(e, a), i)
  {
  }

  lemma LastPass(m: seq<byte>, nt: nat, t: nat, n: nat, base: Address, g: SectionData, lo: nat)
    requires HasSections(m, nt, t, n)
    ensures PassesFrom(m, nt, t, n, base, n, g, lo)
      == [Pass(Run(g.(last := true), lo, n), Dword(m, nt + SECTION_ALIGNMENT), m)]
  {
  }

  /** Reads the extent of the section whose header lies at p and stores its size in place of its address. */
  method Visit(image: array<byte>, nt: nat, p: nat, base: Address) returns (e: Extent)
    requires nt + SECTION_ALIGNMENT + 4 <= image.Length && p + SECTION_HEADER <= image.Length
    modifies image
    ensures e == VisitedExtent(old(image[..]), nt, p, base)
    ensures image[..] == Visited(old(image[..]), nt, p, base)
  {
    hide SectionAt, LiveHeader, RealSize, Recovered;
    e := VisitedExtent(image[..], nt, p, base);
    Put(image, p + MISC, 4, e.size);
  }

  // ----- Section headers that lie behind the fields

  /** Storing the size of one section changes neither the fields nor the other headers. */
  lemma VisitedTable(m: seq<byte>, nt: nat, t: nat, n: nat, base: Address, i: nat)
    requires HasSections(m, nt, t, n) && nt + SECTION_ALIGNMENT + 4 <= t && i < n
    ensures var h, sections := LiveHeader(m, nt, base), Table(m, t, n);
      var m' := Visited(m, nt, t + SECTION_HEADER * i, base);
      && VisitedExtent(m, nt, t + SECTION_HEADER * i, base) == ExtentOf(sections[i], h)
      && Table(m', t, n) == sections[i := sections[i].(misc := RealSize(sections[i], h))]
      && LiveHeader(m', nt, base) == h
      && Agree(m, m', t, t + SECTION_HEADER * n)
  {
    hide Get, SectionAt, RealSize, Set, Recovered;
    var w := RealSize(SectionAt(m, t + SECTION_HEADER * i), LiveHeader(m, nt, base));
    var m' := Visited(m, nt, t + SECTION_HEADER * i, base);
    StoreInTable(m, t, n, i, w);
    AgreeOutside(m, m', t, t + SECTION_HEADER * n, nt, t);
    SameFields(m, m', nt, t, nt + SECTION_ALIGNMENT, 4);
    SameFields(m, m', nt, t, nt + SIZE_OF_INITIALIZED_DATA, 4);
    SameFields(m, m', nt, t, nt + SIZE_OF_UNINITIALIZED_DATA, 4);
  }

  /** The calls ps are the groups rs with the alignment a, and change m between lo and hi at most. */
  ghost predicate Match(ps: seq<Pass>, rs: seq<Run>, a: Word32, m: seq<byte>, lo: nat, hi: nat) {
    && |ps| == |rs|
    && forall k | 0 <= k < |ps| ::
         ps[k].run == rs[k] && ps[k].alignment == a && Agree(m, ps[k].memory, lo, hi)
  }

  /** Section headers with sizes in place of addresses from the i-th on. */
  ghost predicate SizedFrom(before: seq<SectionHeader>, after: seq<SectionHeader>, h: ImageHeader, i: nat) {
    && |after| == |before|
    && forall k | 0 <= k < |before| ::
         after[k] == if k < i then before[k] else before[k].(misc := RealSize(before[k], h))
  }

  /**
   When the section headers lie behind the fields that are read, the calls are the groups of the sections, and in
   the end every header has its section's size.
  */
  lemma {:induction false} PassesAreRuns(m: seq<byte>, nt: nat, t: nat, n: nat, base: Address, i: nat, g: SectionData,
      lo: nat, es: seq<Extent>)
    requires HasSections(m, nt, t, n) && nt + SECTION_ALIGNMENT + 4 <= t && i <= n
    requires |es| == n && forall k | i <= k < n :: es[k] == ExtentOf(Table(m, t, n)[k], LiveHeader(m, nt, base))
    ensures var h, ps := LiveHeader(m, nt, base), PassesFrom(m, nt, t, n, base, i, g, lo);
      && Match(ps, RunsFrom(es, i, g, lo, h.sectionAlignment), h.sectionAlignment, m, t, t + SECTION_HEADER * n)
      && SizedFrom(Table(m, t, n), Table(ps[|ps| - 1].memory, t, n), h, i)
    decreases n - i
  {
    hide SharesPage, Merge, Start, ExtentOf, RealSize, Visited, VisitedExtent, Table, LiveHeader, Agree, SizedFrom,
      Match, PassesFrom, RunsFrom, Dword;
    if i == n {
      LastMatches(m, nt, t, n, base, g, lo, es);
    } else {
      var h, a := LiveHeader(m, nt, base), Dword(m, nt + SECTION_ALIGNMENT);
      AlignmentOf(m, nt, base);
      VisitedTable(m, nt, t, n, base, i);
      var m1, e := Visited(m, nt, t + SECTION_HEADER * i, base), es[i];
      PassStep(m, nt, t, n, base, i, g, lo);
      RunStep(es, i, g, lo, a);
      StillFits(m, m1, nt, t, n, base, i, es);
      AlignmentOf(m1, nt, base);
      if SharesPage(g, e, a) {
        PassesAreRuns(m1, nt, t, n, base, i + 1, Merge(g, e), lo, es);
        MatchBefore(m, m1, nt, t, n, base, i, PassesFrom(m1, nt, t, n, base, i + 1, Merge(g, e), lo),
          RunsFrom(es, i + 1, Merge(g, e), lo, a));
      } else {
        PassesAreRuns(m1, nt, t, n, base, i + 1, Start(e, a), i, es);
        var ps, rs := PassesFrom(m1, nt, t, n, base, i + 1, Start(e, a), i), RunsFrom(es, i + 1, Start(e, a), i, a);
        MatchBefore(m, m1, nt, t, n, base, i, ps, rs);
        MatchCons(Pass(Run(g, lo, i), a, m1), ps, rs, a, m, t, t + SECTION_HEADER * n);
        var all := PassesFrom(m, nt, t, n, base, i, g, lo);
        assert all == [all[0]] + ps;
      }
    }
  }

  lemma RunStep(es: seq<Extent>, i: nat, g: SectionData, lo: nat, a: Word32)
    requires i < |es|
    ensures RunsFrom(es, i, g, lo, a)
      == if SharesPage(g, es[i], a) then RunsFrom(es, i + 1, Merge(g, es[i]), lo, a)
         else [Run(g, lo, i)] + RunsFrom(es, i + 1, Start(es[i], a), i, a)
  {
  }

  lemma StillFits(m: seq<byte>, m1: seq<byte>, nt: nat, t: nat, n: nat, base: Address, i: nat, es: seq<Extent>)
    requires HasSections(m, nt, t, n) && i < n == |es| && |m1| == |m|
    requires forall k | i <= k < n :: es[k] == ExtentOf(Table(m, t, n)[k], LiveHeader(m, nt, base))
    requires LiveHeader(m1, nt, base) == LiveHeader(m, nt, base)
    requires var w := RealSize(Table(m, t, n)[i], LiveHeader(m, nt, base));
      Table(m1, t, n) == Table(m, t, n)[i := Table(m, t, n)[i].(misc := w)]
    ensures HasSections(m1, nt, t, n)
    ensures forall k | i + 1 <= k < n :: es[k] == ExtentOf(Table(m1, t, n)[k], LiveHeader(m1, nt, base))
  {
    hide ExtentOf, RealSize, LiveHeader, Table;
  }

  lemma AlignmentOf(m: seq<byte>, nt: nat, base: Address)
    requires nt + SECTION_ALIGNMENT + 4 <= |m|
    ensures LiveHeader(m, nt, base).sectionAlignment == Dword(m, nt + SECTION_ALIGNMENT)
  {
  }

  lemma LastMatches(m: seq<byte>, nt: nat, t: nat, n: nat, base: Address, g: SectionData, lo: nat, es: seq<Extent>)
    requires HasSections(m, nt, t, n) && |es| == n
    ensures var h, ps := LiveHeader(m, nt, base), PassesFrom(m, nt, t, n, base, n, g, lo);
      && Match(ps, RunsFrom(es, n, g, lo, h.sectionAlignment), h.sectionAlignment, m, t, t + SECTION_HEADER * n)
      && SizedFrom(Table(m, t, n), Table(ps[|ps| - 1].memory, t, n), h, n)
  {
    hide Dword, SectionAt, RealSize;
  }

  lemma MatchBefore(m: seq<byte>, m1: seq<byte>, nt: nat, t: nat, n: nat, base: Address, i: nat, ps: seq<Pass>,
      rs: seq<Run>)
    requires HasSections(m, nt, t, n) && HasSections(m1, nt, t, n) && i < n && |ps| > 0
    requires LiveHeader(m1, nt, base) == LiveHeader(m, nt, base) && Agree(m, m1, t, t + SECTION_HEADER * n)
    requires var h, sections := LiveHeader(m, nt, base), Table(m, t, n);
      && Table(m1, t, n) == sections[i := sections[i].(misc := RealSize(sections[i], h))]
      && Match(ps, rs, h.sectionAlignment, m1, t, t + SECTION_HEADER * n)
      && SizedFrom(Table(m1, t, n), Table(ps[|ps| - 1].memory, t, n), h, i + 1)
    ensures var h := LiveHeader(m, nt, base);
      && Match(ps, rs, h.sectionAlignment, m, t, t + SECTION_HEADER * n)
      && SizedFrom(Table(m, t, n), Table(ps[|ps| - 1].memory, t, n), h, i)
  {
    hide SectionAt, RealSize, LiveHeader, Table;
  }

  lemma MatchCons(p: Pass, ps: seq<Pass>, rs: seq<Run>, a: Word32, m: seq<byte>, lo: nat, hi: nat)
    requires Match(ps, rs, a, m, lo, hi) && p.alignment == a && Agree(m, p.memory, lo, hi)
    ensures Match([p] + ps, [p.run] + rs, a, m, lo, hi)
  {
    hide Agree;
  }

  lemma {:induction false} MatchActs(ps: seq<Pass>, rs: seq<Run>, a: Word32, m: seq<byte>, lo: nat, hi: nat)
    requires Match(ps, rs, a, m, lo, hi) && a > 0
    ensures AllDivide(ps) && PassActions(ps) == Actions(rs, a)
    decreases |ps|
  {
    hide Agree, Action, Match;
    MatchDivides(ps, rs, a, m, lo, hi);
    if ps == [] {
      assert rs == [];
    } else {
      var n := |ps| - 1;
      MatchActs(ps[..n], rs[..n], a, m, lo, hi);
      assert rs == rs[..n] + [rs[n]];
      ActionsAppend(rs[..n], rs[n], a);
    }
  }

  lemma MatchDivides(ps: seq<Pass>, rs: seq<Run>, a: Word32, m: seq<byte>, lo: nat, hi: nat)
    requires Match(ps, rs, a, m, lo, hi) && a > 0
    ensures AllDivide(ps) && |ps| == |rs|
    ensures ps != [] ==> ps[|ps| - 1].run == rs[|ps| - 1] && ps[|ps| - 1].alignment == a
    ensures ps != [] ==> Match(ps[..|ps| - 1], rs[..|ps| - 1], a, m, lo, hi)
  {
    hide Agree;
  }

  lemma {:induction false} ActionsAppend(rs: seq<Run>, r: Run, a: Word32)
    requires a > 0
    ensures Actions(rs + [r], a) == Actions(rs, a) + Action(r.data, a)
  {
    hide Action;
    if rs == [] {
      assert [r][1..] == [];
    } else {
      assert (rs + [r])[1..] == rs[1..] + [r];
      ActionsAppend(rs[1..], r, a);
    }
  }

  /** The calls do to the pages what the sections call for, and none divides by zero. */
  predicate ActsOn(ps: seq<Pass>, sections: seq<SectionHeader>, h: ImageHeader) {
    && |sections| > 0 && h.sectionAlignment > 0
    && AllDivide(ps) && PassActions(ps) == PageActions(sections, h)
  }

  /**
   For section headers behind the fields and an alignment that is not zero, finalizeSections does to the pages what
   the sections in the headers call for, and changes nothing but the sizes in these headers.
  */
  lemma PassesActOnSections(m: seq<byte>, nt: nat, t: nat, n: nat)
    requires HasSections(m, nt, t, n) && n > 0 && nt + SECTION_ALIGNMENT + 4 <= t
    ensures var h, ps, sections := LiveHeader(m, nt, Qword(m, nt + IMAGE_BASE)), Passes(m, nt, t, n), Table(m, t, n);
      && (h.sectionAlignment > 0 ==> ActsOn(ps, sections, h))
      && Agree(m, ps[|ps| - 1].memory, t, t + SECTION_HEADER * n)
      && SizedFrom(sections, Table(ps[|ps| - 1].memory, t, n), h, 0)
  {
    hide Visited, VisitedExtent, Table, SectionAt, RealSize, Recovered, PassesFrom, RunsFrom, Start, Get;
    var base := Qword(m, nt + IMAGE_BASE);
    var h, sections := LiveHeader(m, nt, base), Table(m, t, n);
    var m1 := Visited(m, nt, t, base);
    VisitedTable(m, nt, t, n, base, 0);
    AlignmentOf(m, nt, base);
    var es := Extents(sections, h);
    var g := Start(es[0], h.sectionAlignment);
    PassesAreRuns(m1, nt, t, n, base, 1, g, 0, es);
    var ps, rs := PassesFrom(m1, nt, t, n, base, 1, g, 0), RunsFrom(es, 1, g, 0, h.sectionAlignment);
    MatchBefore(m, m1, nt, t, n, base, 0, ps, rs);
    if h.sectionAlignment > 0 {
      MatchActs(ps, rs, h.sectionAlignment, m, t, t + SECTION_HEADER * n);
    }
  }
}
