/** The headers that lie in the image, and what it takes for them to stay what they are. */
module MappedHeaders {
  import opened Bytes
  import opened Words
  import opened Os
  import opened PeHeaders
  import opened Sections
  import opened Finalize
  import opened Loader

  // ----- The bytes that are read again

  /** End of the header fields that are read again, from the NT headers. */
  const FIELDS_END: nat := BASERELOC_DIRECTORY + 8

  /** A byte, by its offset from the NT headers, of a field that is read again from the image. */
  predicate FieldByte(q: int) {
    || NUMBER_OF_SECTIONS <= q < NUMBER_OF_SECTIONS + 2
    || SIZE_OF_OPTIONAL_HEADER <= q < SIZE_OF_OPTIONAL_HEADER + 2
    || SIZE_OF_INITIALIZED_DATA <= q < ADDRESS_OF_ENTRY_POINT + 4
    || IMAGE_BASE <= q < SECTION_ALIGNMENT + 4
    || IMPORT_DIRECTORY <= q < IMPORT_DIRECTORY + 8
    || BASERELOC_DIRECTORY <= q < BASERELOC_DIRECTORY + 8
  }

  /** The same for an offset in the image, the section headers from t to end included. */
  predicate HeaderByte(p: int, nt: nat, t: nat, end: nat) { t <= p < end || FieldByte(p - nt) }

  /** m' has the header bytes of m. */
  ghost predicate KeepsHeaders(m: seq<byte>, m': seq<byte>, nt: nat, t: nat, end: nat) {
    && |m'| == |m| && t <= end <= |m|
    && forall p | 0 <= p < |m| && HeaderByte(p, nt, t, end) :: m'[p] == m[p]
  }

  // ----- Sections that keep off the headers

  /** The section headers lie behind the fields, and fields and section headers in the part that is copied. */
  predicate HeadersMapped(file: seq<byte>, nt: nat)
    requires HasHeaders(file, nt)
  {
    nt + FIELDS_END <= TableStart(file, nt) && HeadersEnd(file, nt) <= HeadersAt(file, nt).sizeOfHeaders
  }

  /** No section is written over the section headers. */
  predicate OffTable(file: seq<byte>, nt: nat)
    requires HasHeaders(file, nt)
  {
    AllClearOf(HeadersAt(file, nt).sections, HeadersAt(file, nt).sectionAlignment, TableStart(file, nt),
      HeadersEnd(file, nt))
  }

  /** No section is written over a header byte that is read again. */
  ghost predicate HeadersApart(file: seq<byte>, nt: nat)
    requires HasHeaders(file, nt)
  {
    && HeadersMapped(file, nt)
    && forall p | HeaderByte(p, nt, TableStart(file, nt), HeadersEnd(file, nt)) ::
         NoneOver(HeadersAt(file, nt).sections, HeadersAt(file, nt).sectionAlignment, p, 0)
  }

  lemma ApartFromTable(file: seq<byte>, nt: nat)
    requires HasHeaders(file, nt) && HeadersApart(file, nt)
    ensures OffTable(file, nt)
  {
    hide Dword, Qword, DirectoryAt, SectionAt, U16, And;
    var h, t, end := HeadersAt(file, nt), TableStart(file, nt), HeadersEnd(file, nt);
    forall i | 0 <= i < |h.sections| ensures ClearOf(h.sections[i], h.sectionAlignment, t, end) {
      var p := if t < h.sections[i].virtualAddress then h.sections[i].virtualAddress else t;
      assert |h.sections| > 0 && t < end;
      if p < end {
        assert HeaderByte(p, nt, t, end);
        assert NoneOver(h.sections, h.sectionAlignment, p, 0);
        assert !WritesTo(h.sections[i], h.sectionAlignment, p);
      }
    }
  }

  /** Image, headers and status after the sections of the file have been copied, with the headers kept apart. */
  function SectionsCopied(file: seq<byte>, nt: nat, h: Headers, codeBase: Address)
    : (r: (seq<byte>, seq<SectionHeader>, CopyStatus))
    requires LayoutOk(h.sections, h.sizeOfImage, h.sectionAlignment) && 0 < ImageSize(h) && Fits(file, nt, h)
    ensures |r.0| == ImageSize(h) && |r.1| == |h.sections|
  {
    NotEmpty(h);
    CopyFrom(BaseStored(file, nt, h, codeBase), h.sections, 0, file, h.sectionAlignment, codeBase)
  }

  // ----- Headers that are held

  /** The fields finalizeSections reads, in the headers of the file. */
  function ImageHeaderOf(h: Headers, codeBase: Address): ImageHeader {
    ImageHeader(codeBase, h.sectionAlignment, h.sizeOfInitializedData, h.sizeOfUninitializedData)
  }

  /** What is read again at nt is what the file has there, with these section headers and this base. */
  predicate HeadersHeld(file: seq<byte>, nt: nat, m: seq<byte>, sections: seq<SectionHeader>, codeBase: Address)
    requires HasHeaders(file, nt)
  {
    && FieldsHeld(file, nt, m) && Qword(m, nt + IMAGE_BASE) == codeBase
    && HeadersEnd(file, nt) <= |m| && Table(m, TableStart(file, nt), SectionCount(file, nt)) == sections
  }

  predicate FieldsHeld(file: seq<byte>, nt: nat, m: seq<byte>)
    requires HasHeaders(file, nt)
  {
    && nt + FIELDS_END <= |m|
    && TableStart(m, nt) == TableStart(file, nt) && SectionCount(m, nt) == SectionCount(file, nt)
    && LiveHeader(m, nt, 0) == ImageHeaderOf(HeadersAt(file, nt), 0)
    && Dword(m, nt + ADDRESS_OF_ENTRY_POINT) == HeadersAt(file, nt).addressOfEntryPoint
    && DirectoryAt(m, nt + BASERELOC_DIRECTORY) == HeadersAt(file, nt).relocations
    && DirectoryAt(m, nt + IMPORT_DIRECTORY) == HeadersAt(file, nt).imports
  }

  /** The two memories have the same fields, the base excepted. */
  predicate SameHeaderFields(m: seq<byte>, m': seq<byte>, nt: nat) {
    && Same(m, m', nt + NUMBER_OF_SECTIONS, nt + NUMBER_OF_SECTIONS + 2)
    && Same(m, m', nt + SIZE_OF_OPTIONAL_HEADER, nt + SIZE_OF_OPTIONAL_HEADER + 2)
    && Same(m, m', nt + SIZE_OF_INITIALIZED_DATA, nt + ADDRESS_OF_ENTRY_POINT + 4)
    && Same(m, m', nt + SECTION_ALIGNMENT, nt + SECTION_ALIGNMENT + 4)
    && Same(m, m', nt + IMPORT_DIRECTORY, nt + IMPORT_DIRECTORY + 8)
    && Same(m, m', nt + BASERELOC_DIRECTORY, nt + BASERELOC_DIRECTORY + 8)
  }

  lemma SameReads(m: seq<byte>, m': seq<byte>, nt: nat)
    requires SameHeaderFields(m, m', nt)
    ensures TableStart(m', nt) == TableStart(m, nt) && SectionCount(m', nt) == SectionCount(m, nt)
    ensures LiveHeader(m', nt, 0) == LiveHeader(m, nt, 0)
    ensures Dword(m', nt + ADDRESS_OF_ENTRY_POINT) == Dword(m, nt + ADDRESS_OF_ENTRY_POINT)
    ensures DirectoryAt(m', nt + BASERELOC_DIRECTORY) == DirectoryAt(m, nt + BASERELOC_DIRECTORY)
    ensures DirectoryAt(m', nt + IMPORT_DIRECTORY) == DirectoryAt(m, nt + IMPORT_DIRECTORY)
  {
    hide Get, Same;
    FieldBounds(m, m', nt);
    SameHere(m, m', nt + NUMBER_OF_SECTIONS, 2, 0, 2);
    SameHere(m, m', nt + SIZE_OF_OPTIONAL_HEADER, 2, 0, 2);
    SameHere(m, m', nt + SIZE_OF_INITIALIZED_DATA, 12, 0, 4);
    SameHere(m, m', nt + SIZE_OF_INITIALIZED_DATA, 12, 4, 4);
    SameHere(m, m', nt + SIZE_OF_INITIALIZED_DATA, 12, 8, 4);
    SameHere(m, m', nt + SECTION_ALIGNMENT, 4, 0, 4);
    SameHere(m, m', nt + IMPORT_DIRECTORY, 8, 0, 4);
    SameHere(m, m', nt + IMPORT_DIRECTORY, 8, 4, 4);
    SameHere(m, m', nt + BASERELOC_DIRECTORY, 8, 0, 4);
    SameHere(m, m', nt + BASERELOC_DIRECTORY, 8, 4, 4);
  }

  lemma FieldBounds(m: seq<byte>, m': seq<byte>, nt: nat)
    requires SameHeaderFields(m, m', nt)
    ensures nt + FIELDS_END <= |m| && nt + FIELDS_END <= |m'|
  {
  }

  lemma SameHere(m: seq<byte>, m': seq<byte>, lo: nat, n: nat, q: nat, w: nat)
    requires Same(m, m', lo, lo + n) && q + w <= n
    ensures lo + q + w <= |m| && lo + q + w <= |m'| && Get(m', lo + q, w) == Get(m, lo + q, w)
  {
    SameFields(m, m', lo, lo + n, lo + q, w);
  }

  /** The headers are copied as they are, but for the base. */
  lemma BaseStoredHolds(file: seq<byte>, nt: nat, codeBase: Address)
    requires HasHeaders(file, nt) && HeadersMapped(file, nt) && Fits(file, nt, HeadersAt(file, nt))
    ensures HeadersHeld(file, nt, BaseStored(file, nt, HeadersAt(file, nt), codeBase), HeadersAt(file, nt).sections,
      codeBase)
  {
    hide Get, Modulus, SectionAt, ImageSize, And, Le, Table;
    var h, end := HeadersAt(file, nt), HeadersEnd(file, nt);
    var m0, m := HeadersCopied(file, h), BaseStored(file, nt, h, codeBase);
    SpliceAt(m0, nt + IMAGE_BASE, Le(codeBase, 8));
    GetOfSet(m0, nt + IMAGE_BASE, 8, codeBase);
    Moduli();
    assert Same(file, m, nt, nt + IMAGE_BASE);
    assert Same(file, m, nt + SECTION_ALIGNMENT, end);
    WholeFields(file, m, nt, end);
    SameReads(file, m, nt);
    SameSections(file, m, nt + SECTION_ALIGNMENT, end, TableStart(file, nt), SectionCount(file, nt));
  }

  lemma WholeFields(m: seq<byte>, m': seq<byte>, nt: nat, end: nat)
    requires Same(m, m', nt, nt + IMAGE_BASE) && Same(m, m', nt + SECTION_ALIGNMENT, end) && nt + FIELDS_END <= end
    ensures SameHeaderFields(m, m', nt)
  {
    hide Same;
    var b, a := nt + IMAGE_BASE, nt + SECTION_ALIGNMENT;
    SamePart(m, m', nt, b, nt + NUMBER_OF_SECTIONS, nt + NUMBER_OF_SECTIONS + 2);
    SamePart(m, m', nt, b, nt + SIZE_OF_OPTIONAL_HEADER, nt + SIZE_OF_OPTIONAL_HEADER + 2);
    SamePart(m, m', nt, b, nt + SIZE_OF_INITIALIZED_DATA, nt + ADDRESS_OF_ENTRY_POINT + 4);
    SamePart(m, m', a, end, a, a + 4);
    SamePart(m, m', a, end, nt + IMPORT_DIRECTORY, nt + IMPORT_DIRECTORY + 8);
    SamePart(m, m', a, end, nt + BASERELOC_DIRECTORY, nt + BASERELOC_DIRECTORY + 8);
  }

  lemma KeptFields(m: seq<byte>, m': seq<byte>, nt: nat, t: nat, end: nat)
    requires KeepsHeaders(m, m', nt, t, end) && nt + FIELDS_END <= |m|
    ensures SameHeaderFields(m, m', nt) && Same(m, m', nt + IMAGE_BASE, nt + IMAGE_BASE + 8) && Same(m, m', t, end)
  {
    hide Same;
    KeptPart(m, m', nt, t, end, nt + NUMBER_OF_SECTIONS, nt + NUMBER_OF_SECTIONS + 2);
    KeptPart(m, m', nt, t, end, nt + SIZE_OF_OPTIONAL_HEADER, nt + SIZE_OF_OPTIONAL_HEADER + 2);
    KeptPart(m, m', nt, t, end, nt + SIZE_OF_INITIALIZED_DATA, nt + ADDRESS_OF_ENTRY_POINT + 4);
    KeptPart(m, m', nt, t, end, nt + IMAGE_BASE, nt + IMAGE_BASE + 8);
    KeptPart(m, m', nt, t, end, nt + SECTION_ALIGNMENT, nt + SECTION_ALIGNMENT + 4);
    KeptPart(m, m', nt, t, end, nt + IMPORT_DIRECTORY, nt + IMPORT_DIRECTORY + 8);
    KeptPart(m, m', nt, t, end, nt + BASERELOC_DIRECTORY, nt + BASERELOC_DIRECTORY + 8);
    KeptPart(m, m', nt, t, end, t, end);
  }

  lemma KeptPart(m: seq<byte>, m': seq<byte>, nt: nat, t: nat, end: nat, a: nat, b: nat)
    requires KeepsHeaders(m, m', nt, t, end) && a <= b <= |m| && forall p | a <= p < b :: HeaderByte(p, nt, t, end)
    ensures Same(m, m', a, b)
  {
  }

  /** Memory that keeps the fields, with these section headers. */
  lemma StillHeld(file: seq<byte>, nt: nat, m: seq<byte>, m': seq<byte>, before: seq<SectionHeader>,
      sections: seq<SectionHeader>, codeBase: Address)
    requires HasHeaders(file, nt) && HeadersHeld(file, nt, m, before, codeBase)
    requires KeepsHeaders(m, m', nt, TableStart(file, nt), TableStart(file, nt))
    requires sections == Table(m', TableStart(file, nt), SectionCount(file, nt))
    ensures HeadersHeld(file, nt, m', sections, codeBase)
  {
    hide Get, HeadersAt, Table, TableStart, SectionCount, LiveHeader, DirectoryAt, Dword, HeaderByte,
      SameHeaderFields;
    var t := TableStart(file, nt);
    KeptFields(m, m', nt, t, t);
    SameReads(m, m', nt);
    SameFields(m, m', nt + IMAGE_BASE, nt + IMAGE_BASE + 8, nt + IMAGE_BASE, 8);
  }

  /** Memory that keeps the section headers too. */
  lemma AllHeld(file: seq<byte>, nt: nat, m: seq<byte>, m': seq<byte>, sections: seq<SectionHeader>, codeBase: Address)
    requires HasHeaders(file, nt) && HeadersHeld(file, nt, m, sections, codeBase)
    requires KeepsHeaders(m, m', nt, TableStart(file, nt), HeadersEnd(file, nt))
    ensures HeadersHeld(file, nt, m', sections, codeBase)
  {
    hide Get, HeadersAt, Table, SectionCount, LiveHeader, DirectoryAt, Dword, FieldByte, U16, SameHeaderFields;
    var t, end := TableStart(file, nt), HeadersEnd(file, nt);
    KeptFields(m, m', nt, t, end);
    SameSections(m, m', t, end, t, SectionCount(file, nt));
    assert forall p | HeaderByte(p, nt, t, t) :: HeaderByte(p, nt, t, end);
    StillHeld(file, nt, m, m', sections, sections, codeBase);
  }

  /** What copying needs of a file. */
  predicate Copyable(file: seq<byte>, nt: nat)
    requires HasHeaders(file, nt)
  {
    var h := HeadersAt(file, nt);
    LayoutOk(h.sections, h.sizeOfImage, h.sectionAlignment) && 0 < ImageSize(h) && Fits(file, nt, h)
  }

  /**
   Sections that keep off the section headers are copied as if the headers were kept apart, and the headers remember
   the places of the sections.
  */
  lemma MappedApart(file: seq<byte>, nt: nat, codeBase: Address)
    requires HasHeaders(file, nt) && HeadersMapped(file, nt) && OffTable(file, nt) && Copyable(file, nt)
    ensures var h := HeadersAt(file, nt);
      var (m, status) := SectionsMapped(file, nt, h, codeBase);
      var (parted, placed, status') := SectionsCopied(file, nt, h, codeBase);
      && status == status'
      && (status.Copied? ==>
            && HeadersEnd(file, nt) <= |m| && Agree(parted, m, TableStart(file, nt), HeadersEnd(file, nt))
            && placed == Table(m, TableStart(file, nt), SectionCount(file, nt)))
  {
    hide CopyTable, CopyFrom, LayoutOk, ImageSize, AllClearOf, BaseStored, U16, HeadersAt, Table, LiveHeader,
      DirectoryAt, Dword;
    var h := HeadersAt(file, nt);
    var m0, t, n := BaseStored(file, nt, h, codeBase), TableStart(file, nt), SectionCount(file, nt);
    BaseStoredHolds(file, nt, codeBase);
    NotEmpty(h);
    assert Mirrors(m0, t, n, m0, h.sections);
    CopyMirrors(m0, t, n, m0, h.sections, 0, file, h.sectionAlignment, codeBase);
  }

  /** When they keep off all headers, base and fields are held as well. */
  lemma MappedAsCopied(file: seq<byte>, nt: nat, codeBase: Address)
    requires HasHeaders(file, nt) && HeadersApart(file, nt) && Copyable(file, nt)
    ensures var h := HeadersAt(file, nt);
      var (m, status) := SectionsMapped(file, nt, h, codeBase);
      var (parted, placed, status') := SectionsCopied(file, nt, h, codeBase);
      && status == status'
      && (status.Copied? ==>
            && Agree(parted, m, TableStart(file, nt), HeadersEnd(file, nt))
            && HeadersHeld(file, nt, m, placed, codeBase))
  {
    hide CopyTable, CopyFrom, LayoutOk, ImageSize, BaseStored, U16, HeadersAt, Table, LiveHeader, DirectoryAt,
      Dword, SectionsMapped, SectionsCopied, HeadersHeld, FieldByte, NoneOver;
    var h, t := HeadersAt(file, nt), TableStart(file, nt);
    ApartFromTable(file, nt);
    MappedApart(file, nt, codeBase);
    BaseStoredHolds(file, nt, codeBase);
    var m0 := BaseStored(file, nt, h, codeBase);
    var (m, status) := SectionsMapped(file, nt, h, codeBase);
    if status.Copied? {
      forall p | 0 <= p < |m| && HeaderByte(p, nt, t, t) ensures m[p] == m0[p] {
        BehindTable(file, nt, p);
        assert HeaderByte(p, nt, t, HeadersEnd(file, nt));
        UnwrittenByte(file, nt, codeBase, p);
      }
      StillHeld(file, nt, m0, m, h.sections, SectionsCopied(file, nt, h, codeBase).1, codeBase);
    }
  }

  lemma BehindTable(file: seq<byte>, nt: nat, p: int)
    requires HasHeaders(file, nt) && HeadersMapped(file, nt)
    requires HeaderByte(p, nt, TableStart(file, nt), TableStart(file, nt))
    ensures p < TableStart(file, nt)
  {
  }

  /** A byte off the section headers that no section is written to. */
  lemma UnwrittenByte(file: seq<byte>, nt: nat, codeBase: Address, p: nat)
    requires HasHeaders(file, nt) && HeadersMapped(file, nt) && OffTable(file, nt) && Copyable(file, nt)
    requires SectionsMapped(file, nt, HeadersAt(file, nt), codeBase).1.Copied?
    requires var h := HeadersAt(file, nt);
      && p < ImageSize(h) && !(TableStart(file, nt) <= p < HeadersEnd(file, nt))
      && NoneOver(h.sections, h.sectionAlignment, p, 0)
    ensures SectionsMapped(file, nt, HeadersAt(file, nt), codeBase).0[p]
      == BaseStored(file, nt, HeadersAt(file, nt), codeBase)[p]
  {
    hide CopyTable, CopyFrom, LayoutOk, ImageSize, BaseStored, U16, HeadersAt, Table, SectionsMapped, NoneOver;
    MappedApart(file, nt, codeBase);
    var h := HeadersAt(file, nt);
    NotEmpty(h);
    LastWriterWins(BaseStored(file, nt, h, codeBase), h.sections, 0, file, h.sectionAlignment, codeBase, p);
  }

  lemma HeldTable(file: seq<byte>, nt: nat, m: seq<byte>, sections: seq<SectionHeader>, codeBase: Address)
    requires HasHeaders(file, nt) && HeadersHeld(file, nt, m, sections, codeBase)
    ensures HeadersEnd(m, nt) == HeadersEnd(file, nt) <= |m|
    ensures sections == Table(m, TableStart(file, nt), SectionCount(file, nt))
    ensures Qword(m, nt + IMAGE_BASE) == codeBase
    ensures DirectoryAt(m, nt + BASERELOC_DIRECTORY) == HeadersAt(file, nt).relocations
    ensures DirectoryAt(m, nt + IMPORT_DIRECTORY) == HeadersAt(file, nt).imports
    ensures LiveHeader(m, nt, codeBase) == ImageHeaderOf(HeadersAt(file, nt), codeBase)
  {
    hide Get, And, Table;
  }
}
