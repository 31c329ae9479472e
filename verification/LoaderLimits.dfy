/** Where the guarantees of the loader end: files that break them, and exactly when they hold. */
module LoaderLimits {
  import opened Numbers
  import opened Bytes
  import opened Words
  import opened Os
  import opened PeHeaders
  import opened Sections
  import opened Finalize
  import opened Loader
  import opened MappedHeaders
  import opened LoadedImage
  import opened SampleFiles
  import R = Relocation

  // ----- When the image is relocated by its distance

  /** The last section that is written to p, if any is, puts b there. */
  predicate PutsLast(sections: seq<SectionHeader>, alignment: Word32, file: seq<byte>, p: int, b: byte) {
    forall k | 0 <= k < |sections| && LastOver(sections, alignment, p, 0, k) ::
      IsByteOf(b, sections[k], file, p - sections[k].virtualAddress)
  }

  /** Byte j of the base in the headers is not changed by sections. */
  predicate BaseByteSurvives(file: seq<byte>, nt: nat, codeBase: Address, j: nat)
    requires HasHeaders(file, nt) && j < 8
  {
    var h := HeadersAt(file, nt);
    PutsLast(h.sections, h.sectionAlignment, file, nt + IMAGE_BASE + j, Le(codeBase, 8)[j])
  }

  /** Wherever sections are written over the base in the headers, the last of them puts the same base there. */
  predicate BaseSurvives(file: seq<byte>, nt: nat, codeBase: Address)
    requires HasHeaders(file, nt)
  {
    forall j | 0 <= j < 8 :: BaseByteSurvives(file, nt, codeBase, j)
  }

  /**
   For sections that keep off the section headers: the image is relocated by its distance from the preferred base
   exactly when no section puts another base into the headers.
  */
  lemma RelocatedByDistanceExactly(file: seq<byte>, nt: nat, codeBase: Address)
    requires HasHeaders(file, nt) && HeadersMapped(file, nt) && OffTable(file, nt) && Copyable(file, nt)
    requires SectionsMapped(file, nt, HeadersAt(file, nt), codeBase).1.Copied?
    ensures var h := HeadersAt(file, nt); var delta := LocationDelta(SectionsMapped(file, nt, h, codeBase).0, nt, h);
      delta == (codeBase - h.imageBase) % W64 <==> BaseSurvives(file, nt, codeBase)
  {
    hide HeadersAt, SectionsMapped, LayoutOk, ImageSize, BaseByteSurvives, Le, HeadersMapped, OffTable, Qword,
      LocationDelta;
    var h := HeadersAt(file, nt);
    var m, base, le := SectionsMapped(file, nt, h, codeBase).0, nt + IMAGE_BASE, Le(codeBase, 8);
    DeltaIsDistance(m, nt, h, codeBase);
    BaseByBytes(m, base, codeBase, le);
    forall j | 0 <= j < 8 ensures m[base + j] == le[j] <==> BaseByteSurvives(file, nt, codeBase, j) {
      BaseByte(file, nt, codeBase, j);
    }
  }

  /** One byte of the base in the headers. */
  lemma BaseByte(file: seq<byte>, nt: nat, codeBase: Address, j: nat)
    requires HasHeaders(file, nt) && HeadersMapped(file, nt) && OffTable(file, nt) && Copyable(file, nt)
    requires SectionsMapped(file, nt, HeadersAt(file, nt), codeBase).1.Copied?
    requires j < 8 && nt + IMAGE_BASE + 8 <= |SectionsMapped(file, nt, HeadersAt(file, nt), codeBase).0|
    ensures SectionsMapped(file, nt, HeadersAt(file, nt), codeBase).0[nt + IMAGE_BASE + j] == Le(codeBase, 8)[j]
      <==> BaseByteSurvives(file, nt, codeBase, j)
  {
    hide HeadersAt, SectionsMapped, LastOver, NoneOver, PutsLast, FromLast, Le, LayoutOk, CopyFrom, ImageSize, U16,
      HeadersCopied;
    var h, p, b := HeadersAt(file, nt), nt + IMAGE_BASE + j, Le(codeBase, 8)[j];
    var m0, m := BaseStored(file, nt, h, codeBase), SectionsMapped(file, nt, h, codeBase).0;
    MappedApart(file, nt, codeBase);
    SpliceAt(HeadersCopied(file, h), nt + IMAGE_BASE, Le(codeBase, 8));
    NotEmpty(h);
    LastWriterWins(m0, h.sections, 0, file, h.sectionAlignment, codeBase, p);
    var k := SomeLast(h.sections, h.sectionAlignment, p, 0);
    OneByte(m[p], b, m0[p], h.sections, file, h.sectionAlignment, p, k);
  }

  lemma OneByte(b: byte, c: byte, before: byte, sections: seq<SectionHeader>, file: seq<byte>, alignment: Word32,
      p: nat, k: int)
    requires FromLast(b, before, sections, 0, file, alignment, p) && before == c
    requires NoneOver(sections, alignment, p, 0) || LastOver(sections, alignment, p, 0, k)
    ensures b == c <==> PutsLast(sections, alignment, file, p, c)
  {
    hide WritesTo;
  }

  lemma BaseByBytes(m: seq<byte>, base: nat, codeBase: Address, le: seq<byte>)
    requires base + 8 <= |m| && le == Le(codeBase, 8)
    ensures Qword(m, base) == codeBase <==> forall j | 0 <= j < 8 :: m[base + j] == le[j]
  {
    hide Modulus, Value, Le;
    var s := m[base..base + 8];
    Moduli();
    ValueOfLe(codeBase, 8);
    LeOfValue(s);
    SmallMod(codeBase, W64);
    assert Qword(m, base) == Value(s);
    if forall j | 0 <= j < 8 :: m[base + j] == le[j] {
      assert s == le;
    }
  }

  lemma DeltaIsDistance(m: seq<byte>, nt: nat, h: Headers, codeBase: Address)
    requires nt + IMAGE_BASE + 8 <= |m|
    ensures LocationDelta(m, nt, h) == (codeBase - h.imageBase) % W64 <==> Qword(m, nt + IMAGE_BASE) == codeBase
  {
    hide Qword;
    var base: int, preferred: int, here: int := Qword(m, nt + IMAGE_BASE), h.imageBase, codeBase;
    CancelMod(-preferred, base, here, W64);
    assert -preferred + base == base - preferred && -preferred + here == here - preferred;
    SmallMod(base, W64);
    SmallMod(here, W64);
  }

  // ----- Files with one section

  const NO_SECTION: Section := Section(0, 0, 0, 0)

  function OneSection(size: Word32, s: Section): (file: seq<byte>)
    ensures |file| == LENGTH
  {
    FileOf(0x1000, size, 0, 1, s, NO_SECTION)
  }

  function OneSectionHeaders(size: Word32, s: Section): Headers { HeadersOf(0x1000, size, 0, 1, s, NO_SECTION) }

  lemma OneSectionRead(size: Word32, s: Section)
    ensures var file := OneSection(size, s);
      && FindHeaders(file, AMD64) == PeAt(NT) && HasHeaders(file, NT)
      && TableStart(file, NT) == TABLE && SectionCount(file, NT) == 1
      && HeadersAt(file, NT) == OneSectionHeaders(size, s)
  {
    hide FileOf, HasHeaders, HeadersAt, FindHeaders, TableStart, SectionCount, HeadersOf;
    HeadersRead(0x1000, size, 0, 1, s, NO_SECTION);
  }

  /** The file passes all checks when its section ends on the last page of the image. */
  lemma OneSectionFits(size: Word32, s: Section)
    requires size == 0x1000 || size == 0x2000
    requires s.raw > 0 && size - 0x1000 < s.va + s.raw <= size
    ensures HasPe(OneSection(size, s), AMD64) && HasHeaders(OneSection(size, s), NT)
    ensures HeadersMapped(OneSection(size, s), NT) && Copyable(OneSection(size, s), NT)
    ensures ImageSize(OneSectionHeaders(size, s)) == size
  {
    hide FileOf, HasHeaders, HeadersAt, FindHeaders, TableStart, SectionCount, AlignUp, FlagsOf, OneSection;
    OneSectionRead(size, s);
    var h := OneSectionHeaders(size, s);
    AlignUpToPage(size);
    AlignUpToPage(s.va + s.raw);
    assert h.sections[..0] == [];
    assert LastEnd([], 0x1000) == 0;
    assert LastEnd(h.sections, 0x1000) == s.va + s.raw;
  }

  /** Its section is copied in one step, as the file describes it. */
  lemma OneSectionMapped(size: Word32, s: Section, codeBase: Address)
    requires size == 0x1000 || size == 0x2000
    requires s.raw > 0 && size - 0x1000 < s.va + s.raw <= size
    requires var file := OneSection(size, s); HasHeaders(file, NT) && Fits(file, NT, HeadersAt(file, NT))
    ensures var file := OneSection(size, s); var h := HeadersAt(file, NT); var m := BaseStored(file, NT, h, codeBase);
      && |m| == size && h == OneSectionHeaders(size, s)
      && SectionAt(m, TABLE) == HeaderOf(s)
      && SectionsMapped(file, NT, h, codeBase) == CopyStep(m, TABLE, file, 0x1000, codeBase)
  {
    hide FileOf, HeadersAt, SectionAt, Get, BaseStored, OneSection, CopyStep, ImageSize, Dword, DirectoryAt;
    var file := OneSection(size, s);
    OneSectionRead(size, s);
    OneSectionFits(size, s);
    var h := HeadersAt(file, NT);
    var m := BaseStored(file, NT, h, codeBase);
    BaseStoredHolds(file, NT, codeBase);
    assert Table(m, TABLE, 1)[0] == SectionAt(m, TABLE + SECTION_HEADER * 0);
    assert TABLE + SECTION_HEADER * 0 == TABLE;
    OnlyStep(m, TABLE, file, 0x1000, codeBase);
  }

  lemma OnlyStep(m: seq<byte>, t: nat, file: seq<byte>, alignment: Word32, codeBase: nat)
    ensures CopyTable(m, t, 1, 0, file, alignment, codeBase) == CopyStep(m, t, file, alignment, codeBase)
  {
    hide CopyStep;
    var (m1, status) := CopyStep(m, t, file, alignment, codeBase);
    assert t + SECTION_HEADER * 0 == t;
    assert CopyTable(m1, t, 1, 1, file, alignment, codeBase) == (m1, Copied);
  }

  // ----- A section over the headers

  /** The first raw bytes of the file are mapped over the start of the image, the base included. */
  function Prefix(raw: Word32): Section { Section(0, raw, 0, 0) }

  const BASE_END: nat := NT + IMAGE_BASE + 8

  /**
   All sections are copied, apart from one another. But the headers of the image have the preferred base again: the
   loader computes the distance 0, does not relocate, and reports the image as relocated, wherever it lies.
  */
  predicate LosesTheBase(file: seq<byte>, nt: nat, codeBase: Address) {
    && HasHeaders(file, nt)
    && var h := HeadersAt(file, nt);
    && Fits(file, nt, h) && AllDisjoint(h.sections, h.sectionAlignment) && WellPlaced(h)
    && var (m, status) := SectionsMapped(file, nt, h, codeBase);
    && status.Copied? && LocationDelta(m, nt, h) == 0 && Relocated(m, nt, h) == (m, R.Done(true))
  }

  lemma PrefixMapped(raw: Word32, codeBase: Address)
    requires BASE_END <= raw <= LENGTH
    ensures var file := OneSection(0x1000, Prefix(raw));
      && HasHeaders(file, NT) && Fits(file, NT, HeadersAt(file, NT))
      && var h := HeadersAt(file, NT);
      && h == OneSectionHeaders(0x1000, Prefix(raw)) && ImageSize(h) == LENGTH
      && SectionsMapped(file, NT, h, codeBase)
        == (StoreAddress(Splice(BaseStored(file, NT, h, codeBase), 0, file[..raw]), TABLE, PageBase(codeBase)), Copied)
  {
    hide FileOf, HeadersAt, SectionAt, BaseStored, OneSection, LayoutOk, ImageSize, StoreAddress, Splice, HasHeaders,
      PageBase, HasPe, HeadersMapped;
    var file, s := OneSection(0x1000, Prefix(raw)), HeaderOf(Prefix(raw));
    OneSectionRead(0x1000, Prefix(raw));
    OneSectionFits(0x1000, Prefix(raw));
    OneSectionMapped(0x1000, Prefix(raw), codeBase);
    assert Contents(s, file, 0x1000) == file[..raw];
  }

  /** The file passes every check, and its section puts the preferred base back, at every base the image may get. */
  lemma PrefixLosesTheBase(raw: Word32, codeBase: Address)
    requires BASE_END <= raw <= LENGTH
    ensures HasPe(OneSection(0x1000, Prefix(raw)), AMD64)
    ensures LosesTheBase(OneSection(0x1000, Prefix(raw)), NT, codeBase)
  {
    hide FileOf, HeadersAt, BaseStored, OneSection, LayoutOk, ImageSize, StoreAddress, HasHeaders, PageBase,
      FindHeaders, SectionsMapped, Qword, AllDisjoint, WellPlaced, HeadersMapped;
    var file := OneSection(0x1000, Prefix(raw));
    OneSectionFits(0x1000, Prefix(raw));
    PrefixMapped(raw, codeBase);
    BaseRestored(raw, codeBase);
    AloneInPlace(raw);
  }

  lemma AloneInPlace(raw: Word32)
    ensures var h := OneSectionHeaders(0x1000, Prefix(raw));
      AllDisjoint(h.sections, h.sectionAlignment) && WellPlaced(h)
  {
    hide FlagsOf, RealSize;
  }

  lemma BaseRestored(raw: Word32, codeBase: Address)
    requires BASE_END <= raw <= LENGTH
    requires var file := OneSection(0x1000, Prefix(raw)); HasHeaders(file, NT) && Fits(file, NT, HeadersAt(file, NT))
    requires HeadersAt(OneSection(0x1000, Prefix(raw)), NT) == OneSectionHeaders(0x1000, Prefix(raw))
    ensures var file := OneSection(0x1000, Prefix(raw)); var m0 := BaseStored(file, NT, HeadersAt(file, NT), codeBase);
      && |m0| >= LENGTH
      && Qword(StoreAddress(Splice(m0, 0, file[..raw]), TABLE, PageBase(codeBase)), NT + IMAGE_BASE) == PREFERRED
  {
    hide FileOf, HeadersAt, BaseStored, LayoutOk, ImageSize, HasHeaders, PageBase, Get, Set, LowHalf, Splice, Modulus;
    var file := OneSection(0x1000, Prefix(raw));
    OneSectionFits(0x1000, Prefix(raw));
    var m0 := BaseStored(file, NT, HeadersAt(file, NT), codeBase);
    var m1 := Splice(m0, 0, file[..raw]);
    SpliceAt(m0, 0, file[..raw]);
    assert Same(file, m1, 0, raw);
    SameFields(file, m1, 0, raw, NT + IMAGE_BASE, 8);
    GetElsewhere(m1, TABLE + MISC, 4, LowHalf(PageBase(codeBase)), NT + IMAGE_BASE, 8);
    FieldsRead(0x1000, 0x1000, 0, 1, Prefix(raw), NO_SECTION);
  }

  /** A section that ends before the section headers: it leaves the base alone exactly at the preferred base. */
  lemma PrefixSurvives(raw: Word32, codeBase: Address)
    requires BASE_END <= raw <= TABLE
    ensures var file := OneSection(0x1000, Prefix(raw));
      && HasHeaders(file, NT) && HeadersMapped(file, NT) && OffTable(file, NT) && Copyable(file, NT)
      && (BaseSurvives(file, NT, codeBase) <==> codeBase == PREFERRED)
  {
    hide FileOf, HeadersAt, OneSection, LayoutOk, ImageSize, HasHeaders, SectionsMapped, BaseSurvives, LocationDelta,
      HeadersMapped, Relocated, AllDisjoint, WellPlaced, TableStart, SectionCount;
    var file := OneSection(0x1000, Prefix(raw));
    OneSectionRead(0x1000, Prefix(raw));
    OneSectionFits(0x1000, Prefix(raw));
    PrefixLosesTheBase(raw, codeBase);
    RelocatedByDistanceExactly(file, NT, codeBase);
    ZeroDistance(codeBase, PREFERRED);
  }

  lemma ZeroDistance(a: Address, b: Address)
    ensures (a - b) % W64 == 0 <==> a == b
  {
    if a < b {
      QuotientIs(a - b, W64, -1, a - b + W64);
    } else {
      SmallMod(a - b, W64);
    }
  }

  /** The 4 bytes at p, which the section covers, are not those of the file but the low half of its place. */
  predicate LosesBytes(file: seq<byte>, nt: nat, codeBase: Address, p: nat) {
    && HasHeaders(file, nt) && Fits(file, nt, HeadersAt(file, nt)) && p + 4 <= |file|
    && var m := SectionsMapped(file, nt, HeadersAt(file, nt), codeBase).0;
    && p + 4 <= |m| && U32(m, p) == LowHalf(PageBase(codeBase)) && U32(file, p) == 0
  }

  /** A section that covers its own header has bytes of its own overwritten by its address. */
  lemma PrefixLosesBytes(raw: Word32, codeBase: Address)
    requires TABLE + MISC + 4 <= raw <= LENGTH
    ensures LosesBytes(OneSection(0x1000, Prefix(raw)), NT, codeBase, TABLE + MISC)
  {
    hide FileOf, HeadersAt, BaseStored, LayoutOk, ImageSize, HasHeaders, PageBase, Get, Set, LowHalf, Splice, Modulus,
      SectionsMapped;
    var file := OneSection(0x1000, Prefix(raw));
    OneSectionFits(0x1000, Prefix(raw));
    PrefixMapped(raw, codeBase);
    var m0 := BaseStored(file, NT, HeadersAt(file, NT), codeBase);
    GetOfSet(Splice(m0, 0, file[..raw]), TABLE + MISC, 4, LowHalf(PageBase(codeBase)));
    Moduli();
    ZeroField(0x1000, 0x1000, 0, 1, Prefix(raw), NO_SECTION, TABLE + MISC, 4);
  }

  // ----- Sums that wrap around

  /** Place and size of the raw data add up to 0x800 on 32 bits. */
  const WRAPPED: Section := Section(0x1000, 0x1000, 0xffff_f800, 0)

  /** The file passes every check, the size guard of its section too, and the copy reads past its end. */
  lemma GuardLetsReadLeave(codeBase: Address)
    ensures var file := OneSection(0x2000, WRAPPED);
      && HasPe(file, AMD64) && HasHeaders(file, NT) && Fits(file, NT, HeadersAt(file, NT))
      && SectionsMapped(file, NT, HeadersAt(file, NT), codeBase).1 == ReadsPastFile
  {
    hide FileOf, HeadersAt, SectionAt, BaseStored, OneSection, LayoutOk, ImageSize, HasHeaders, HasPe, HeadersMapped,
      SectionsMapped;
    OneSectionRead(0x2000, WRAPPED);
    OneSectionFits(0x2000, WRAPPED);
    OneSectionMapped(0x2000, WRAPPED, codeBase);
  }

  /**
   The headers are looked for outside a file exactly when their offset lies less than their size below zero, so that
   the sum of the size check wraps around and the file is long enough for what is left of it.
  */
  lemma OffsetWrapsExactly(file: seq<byte>, machine: Machine)
    requires |file| >= DOS_HEADER && U16(file, 0) == DOS_SIGNATURE && |file| < W32
    ensures FindHeaders(file, machine).OutsideFile? <==>
      W32 - NT_HEADERS <= Dword(file, LFANEW) <= W32 - NT_HEADERS + |file|
  {
    hide U32, Dword;
    var w := Dword(file, LFANEW);
    if w >= W32 - NT_HEADERS {
      QuotientIs(SignExtended(w) + NT_HEADERS, W64, 1, w - (W32 - NT_HEADERS));
    } else {
      SmallMod(SignExtended(w) + NT_HEADERS, W64);
    }
  }

  /** A file whose headers are looked for one byte in front of it. */
  function Backward(): (file: seq<byte>)
    ensures |file| == LENGTH
  {
    Written(LENGTH, [Field(0, 2, DOS_SIGNATURE), Field(LFANEW, 4, W32 - 1)])
  }

  lemma BackwardLeavesTheFile(machine: Machine)
    ensures FindHeaders(Backward(), machine).OutsideFile?
  {
    hide Written, Get, Modulus;
    var fields := [Field(0, 2, DOS_SIGNATURE), Field(LFANEW, 4, W32 - 1)];
    assert InOrder(fields[2..], LFANEW + 4, LENGTH);
    assert fields[1..][1..] == fields[2..];
    assert InOrder(fields[1..], 2, LENGTH);
    ReadBack(LENGTH, fields, 0);
    ReadBack(LENGTH, fields, 1);
    Moduli();
    OffsetWrapsExactly(Backward(), machine);
  }
}
