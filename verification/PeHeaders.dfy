/**
 The PE headers as they lie in a file or an image, 64-bit format: the fields the loader reads and writes, by
 their offset from the NT headers.
*/
module PeHeaders {
  import opened Bytes
  import opened Words
  import opened Os
  import opened Relocation

  const DOS_HEADER: nat := 64
  const NT_HEADERS: nat := 264
  const SECTION_HEADER: nat := 40

  const DOS_SIGNATURE: nat := 0x5a4d
  const NT_SIGNATURE: nat := 0x4550

  // Offset in the DOS header.
  const LFANEW: nat := 60

  // Offsets from the NT headers.
  const MACHINE: nat := 4
  const NUMBER_OF_SECTIONS: nat := 6
  const SIZE_OF_OPTIONAL_HEADER: nat := 20
  const CHARACTERISTICS: nat := 22
  const OPTIONAL_HEADER: nat := 24
  const SIZE_OF_INITIALIZED_DATA: nat := 32
  const SIZE_OF_UNINITIALIZED_DATA: nat := 36
  const ADDRESS_OF_ENTRY_POINT: nat := 40
  const IMAGE_BASE: nat := 48
  const SECTION_ALIGNMENT: nat := 56
  const SIZE_OF_IMAGE: nat := 80
  const SIZE_OF_HEADERS: nat := 84
  const IMPORT_DIRECTORY: nat := 144
  const BASERELOC_DIRECTORY: nat := 176

  // Offsets in a section header; the physical address and the virtual size share the field at 8.
  const MISC: nat := 8
  const VIRTUAL_ADDRESS: nat := 12
  const SIZE_OF_RAW_DATA: nat := 16
  const POINTER_TO_RAW_DATA: nat := 20
  const SECTION_CHARACTERISTICS: nat := 36

  const FILE_DLL: nat := 0x2000

  type Word32 = x: int | 0 <= x < 0x1_0000_0000

  /** misc is the union of the physical address and the virtual size. */
  datatype SectionHeader = SectionHeader(misc: Word32, virtualAddress: Word32, sizeOfRawData: Word32,
    pointerToRawData: Word32, characteristics: bv32)

  function Dword(m: seq<byte>, p: nat): (w: Word32)
    requires p + 4 <= |m|
  {
    ValueBound(m[p..p + 4]);
    Moduli();
    U32(m, p)
  }

  function Qword(m: seq<byte>, p: nat): (a: Address)
    requires p + 8 <= |m|
  {
    ValueBound(m[p..p + 8]);
    Moduli();
    U64(m, p)
  }

  function FlagsOf(w: Word32): bv32 { w as bv32 }

  function SectionAt(m: seq<byte>, p: nat): SectionHeader
    requires p + SECTION_HEADER <= |m|
  {
    SectionHeader(Dword(m, p + MISC), Dword(m, p + VIRTUAL_ADDRESS), Dword(m, p + SIZE_OF_RAW_DATA),
      Dword(m, p + POINTER_TO_RAW_DATA), FlagsOf(Dword(m, p + SECTION_CHARACTERISTICS)))
  }

  /** The n section headers from offset t on. */
  function Table(m: seq<byte>, t: nat, n: nat): (sections: seq<SectionHeader>)
    requires t + SECTION_HEADER * n <= |m|
    ensures |sections| == n
    ensures forall i | 0 <= i < n :: sections[i] == SectionAt(m, t + SECTION_HEADER * i)
  {
    seq(n, i requires 0 <= i < n => SectionAt(m, t + SECTION_HEADER * i))
  }

  function DirectoryAt(m: seq<byte>, p: nat): Directory
    requires p + 8 <= |m|
  {
    Directory(U32(m, p), U32(m, p + 4))
  }

  /** Offset of the section headers. */
  function TableStart(m: seq<byte>, nt: nat): (t: nat)
    requires nt + OPTIONAL_HEADER <= |m|
    ensures t >= nt + OPTIONAL_HEADER
  {
    nt + OPTIONAL_HEADER + U16(m, nt + SIZE_OF_OPTIONAL_HEADER)
  }

  function SectionCount(m: seq<byte>, nt: nat): nat
    requires nt + OPTIONAL_HEADER <= |m|
  {
    U16(m, nt + NUMBER_OF_SECTIONS)
  }

  function HeadersEnd(m: seq<byte>, nt: nat): (end: nat)
    requires nt + OPTIONAL_HEADER <= |m|
    ensures end >= nt + OPTIONAL_HEADER
  {
    TableStart(m, nt) + SECTION_HEADER * SectionCount(m, nt)
  }

  predicate HasHeaders(m: seq<byte>, nt: nat) {
    nt + NT_HEADERS <= |m| && HeadersEnd(m, nt) <= |m|
  }

  /** The fields of the PE headers the loader uses. */
  datatype Headers = Headers(imageBase: Address, sectionAlignment: Word32, sizeOfImage: Word32, sizeOfHeaders: Word32,
    sizeOfInitializedData: Word32, sizeOfUninitializedData: Word32, addressOfEntryPoint: Word32, isDll: bool,
    relocations: Directory, imports: Directory, sections: seq<SectionHeader>)

  function HeadersAt(m: seq<byte>, nt: nat): Headers
    requires HasHeaders(m, nt)
  {
    Headers(Qword(m, nt + IMAGE_BASE), Dword(m, nt + SECTION_ALIGNMENT), Dword(m, nt + SIZE_OF_IMAGE),
      Dword(m, nt + SIZE_OF_HEADERS), Dword(m, nt + SIZE_OF_INITIALIZED_DATA),
      Dword(m, nt + SIZE_OF_UNINITIALIZED_DATA), Dword(m, nt + ADDRESS_OF_ENTRY_POINT),
      And(U16(m, nt + CHARACTERISTICS), FILE_DLL) != 0,
      DirectoryAt(m, nt + BASERELOC_DIRECTORY), DirectoryAt(m, nt + IMPORT_DIRECTORY),
      Table(m, TableStart(m, nt), SectionCount(m, nt)))
  }

  // ----- The layout of the format

  /** The fields of the optional header and of the file header, by their offsets in the format. */
  lemma HeaderFields(m: seq<byte>, nt: nat)
    requires HasHeaders(m, nt)
    ensures nt + 264 <= |m|
    ensures var h := HeadersAt(m, nt);
      && h.imageBase == U64(m, nt + 48) && h.sectionAlignment == U32(m, nt + 56)
      && h.sizeOfImage == U32(m, nt + 80) && h.sizeOfHeaders == U32(m, nt + 84)
      && h.sizeOfInitializedData == U32(m, nt + 32) && h.sizeOfUninitializedData == U32(m, nt + 36)
      && h.addressOfEntryPoint == U32(m, nt + 40) && (h.isDll <==> U16(m, nt + 22) / 0x2000 % 2 == 1)
      && h.imports == Directory(U32(m, nt + 144), U32(m, nt + 148))
      && h.relocations == Directory(U32(m, nt + 176), U32(m, nt + 180))
      && |h.sections| == U16(m, nt + 6)
  {
    hide U16, U32, U64, And, SectionAt;
    DllFlag(U16(m, nt + 22));
  }

  lemma DllFlag(x: nat)
    ensures And(x, FILE_DLL) != 0 <==> x / 0x2000 % 2 == 1
  {
    hide And;
    PowerOfDll();
    AndOneBit(x, 13);
  }

  lemma PowerOfDll()
    ensures Pow2(13) == 0x2000
  {
    PowerOfPage();
  }

  /** Section k: its header has 40 bytes and lies behind the optional header. */
  lemma SectionFields(m: seq<byte>, nt: nat, k: nat)
    requires HasHeaders(m, nt) && k < |HeadersAt(m, nt).sections|
    ensures nt + 22 <= |m| && nt + 24 + U16(m, nt + 20) + 40 * k + 40 <= |m|
    ensures var p := nt + 24 + U16(m, nt + 20) + 40 * k;
      HeadersAt(m, nt).sections[k]
        == SectionHeader(Dword(m, p + 8), Dword(m, p + 12), Dword(m, p + 16), Dword(m, p + 20),
             Dword(m, p + 36) as bv32)
  {
    hide U16, U32, And, Dword;
  }

  // ----- Headers depend on their own bytes only

  lemma SameSection(m: seq<byte>, m': seq<byte>, lo: nat, hi: nat, p: nat)
    requires Same(m, m', lo, hi) && lo <= p && p + SECTION_HEADER <= hi
    ensures SectionAt(m', p) == SectionAt(m, p)
  {
    hide Get, FlagsOf;
    SameFields(m, m', lo, hi, p + MISC, 4);
    SameFields(m, m', lo, hi, p + VIRTUAL_ADDRESS, 4);
    SameFields(m, m', lo, hi, p + SIZE_OF_RAW_DATA, 4);
    SameFields(m, m', lo, hi, p + POINTER_TO_RAW_DATA, 4);
    SameFields(m, m', lo, hi, p + SECTION_CHARACTERISTICS, 4);
  }

  lemma SameSections(m: seq<byte>, m': seq<byte>, lo: nat, hi: nat, t: nat, n: nat)
    requires Same(m, m', lo, hi) && lo <= t && t + SECTION_HEADER * n <= hi
    ensures Table(m', t, n) == Table(m, t, n)
  {
    hide SectionAt;
    forall i | 0 <= i < n ensures SectionAt(m', t + SECTION_HEADER * i) == SectionAt(m, t + SECTION_HEADER * i) {
      SameSection(m, m', lo, hi, t + SECTION_HEADER * i);
    }
  }
}
