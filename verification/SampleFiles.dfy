/** Small PE files, byte for byte, that reach the exceptional cases of the loader. */
module SampleFiles {
  import opened Bytes
  import opened Words
  import opened PeHeaders
  import opened Loader
  import opened Relocation

  /** A number written at an offset. */
  datatype Field = Field(at: nat, width: nat, value: nat)

  predicate InFile(f: Field, length: nat) { f.at + f.width <= length }

  /** Zeros with the fields written into them. */
  function Written(length: nat, fields: seq<Field>): (m: seq<byte>)
    requires forall k | 0 <= k < |fields| :: InFile(fields[k], length)
    ensures |m| == length
    decreases |fields|
  {
    if fields == [] then seq(length, i => 0)
    else
      var n := |fields| - 1;
      assert InFile(fields[n], length);
      Set(Written(length, fields[..n]), fields[n].at, fields[n].width, fields[n].value)
  }

  /** Each field starts where the one before has ended, or later. */
  predicate InOrder(fields: seq<Field>, from: nat, length: nat)
    decreases |fields|
  {
    fields == [] || (from <= fields[0].at && InFile(fields[0], length)
                     && InOrder(fields[1..], fields[0].at + fields[0].width, length))
  }

  lemma {:induction false} Spread(fields: seq<Field>, from: nat, length: nat)
    requires InOrder(fields, from, length)
    ensures forall k | 0 <= k < |fields| :: InFile(fields[k], length) && from <= fields[k].at
    ensures forall j, k | 0 <= j < k < |fields| :: fields[j].at + fields[j].width <= fields[k].at
    decreases |fields|
  {
    if fields == [] {
    } else {
      var rest := fields[1..];
      Spread(rest, fields[0].at + fields[0].width, length);
      assert forall k | 1 <= k < |fields| :: fields[k] == rest[k - 1];
    }
  }

  /** What no field touches is zero. */
  lemma {:induction false} Untouched(length: nat, fields: seq<Field>, p: nat, w: nat)
    requires forall k | 0 <= k < |fields| :: InFile(fields[k], length)
    requires p + w <= length
    requires forall k | 0 <= k < |fields| :: p + w <= fields[k].at || fields[k].at + fields[k].width <= p
    ensures Get(Written(length, fields), p, w) == 0
    decreases |fields|
  {
    if fields == [] {
      ZeroValue(w);
      assert Written(length, fields)[p..p + w] == seq(w, i => 0);
    } else {
      var n := |fields| - 1;
      Untouched(length, fields[..n], p, w);
      GetElsewhere(Written(length, fields[..n]), fields[n].at, fields[n].width, fields[n].value, p, w);
    }
  }

  lemma {:induction false} ZeroValue(w: nat)
    ensures Value(seq(w, i => 0)) == 0
  {
    if w == 0 {
    } else {
      var s: seq<byte> := seq(w, i => 0);
      assert s[1..] == seq(w - 1, i => 0);
      ZeroValue(w - 1);
    }
  }

  /** Every field can be read back. */
  lemma {:induction false} ReadBack(length: nat, fields: seq<Field>, k: nat)
    requires InOrder(fields, 0, length) && k < |fields|
    ensures forall j | 0 <= j < |fields| :: InFile(fields[j], length)
    ensures Get(Written(length, fields), fields[k].at, fields[k].width) == fields[k].value % Modulus(fields[k].width)
  {
    Spread(fields, 0, length);
    ReadBackFrom(length, fields, k);
  }

  lemma {:induction false} ReadBackFrom(length: nat, fields: seq<Field>, k: nat)
    requires forall j | 0 <= j < |fields| :: InFile(fields[j], length)
    requires forall i, j | 0 <= i < j < |fields| :: fields[i].at + fields[i].width <= fields[j].at
    requires k < |fields|
    ensures Get(Written(length, fields), fields[k].at, fields[k].width) == fields[k].value % Modulus(fields[k].width)
    decreases |fields|
  {
    hide Get, Modulus, Set;
    var n := |fields| - 1;
    var before := Written(length, fields[..n]);
    if k == n {
      GetOfSet(before, fields[n].at, fields[n].width, fields[n].value);
    } else {
      ReadBackFrom(length, fields[..n], k);
      GetElsewhere(before, fields[n].at, fields[n].width, fields[n].value, fields[k].at, fields[k].width);
    }
  }

  // ----- A file for AMD64 with its NT headers at 64

  const NT: nat := 64
  const AMD64: Machine := 0x8664
  const PREFERRED: nat := 0x1_4000_0000
  const LENGTH: nat := 0x1000
  const TABLE: nat := 328

  /** A section as it is written into a file: address, size, place in the file, flags. */
  datatype Section = Section(va: Word32, raw: Word32, pointer: Word32, flags: Word32)

  /** The fields of a file with two sections, of which the header may count the first only. */
  function FileFields(alignment: Word32, sizeOfImage: Word32, uninitialized: Word32, count: nat, s: Section, t: Section)
    : (fields: seq<Field>)
    ensures |fields| == 19
  {
    [Field(0, 2, DOS_SIGNATURE), Field(LFANEW, 4, NT), Field(NT, 4, NT_SIGNATURE), Field(NT + MACHINE, 2, AMD64),
     Field(NT + NUMBER_OF_SECTIONS, 2, count), Field(NT + SIZE_OF_OPTIONAL_HEADER, 2, 240),
     Field(NT + SIZE_OF_UNINITIALIZED_DATA, 4, uninitialized), Field(NT + IMAGE_BASE, 8, PREFERRED),
     Field(NT + SECTION_ALIGNMENT, 4, alignment), Field(NT + SIZE_OF_IMAGE, 4, sizeOfImage),
     Field(NT + SIZE_OF_HEADERS, 4, 0x200),
     Field(TABLE + VIRTUAL_ADDRESS, 4, s.va), Field(TABLE + SIZE_OF_RAW_DATA, 4, s.raw),
     Field(TABLE + POINTER_TO_RAW_DATA, 4, s.pointer), Field(TABLE + SECTION_CHARACTERISTICS, 4, s.flags),
     Field(TABLE + SECTION_HEADER + VIRTUAL_ADDRESS, 4, t.va),
     Field(TABLE + SECTION_HEADER + SIZE_OF_RAW_DATA, 4, t.raw),
     Field(TABLE + SECTION_HEADER + POINTER_TO_RAW_DATA, 4, t.pointer),
     Field(TABLE + SECTION_HEADER + SECTION_CHARACTERISTICS, 4, t.flags)]
  }

  lemma FileFieldsInOrder(alignment: Word32, sizeOfImage: Word32, uninitialized: Word32, count: nat, s: Section,
      t: Section)
    ensures var fields := FileFields(alignment, sizeOfImage, uninitialized, count, s, t);
      InOrder(fields, 0, LENGTH)
  {
    var fields := FileFields(alignment, sizeOfImage, uninitialized, count, s, t);
    StepsInOrder(fields, 0);
  }

  /** Ascending neighbours are in order. */
  lemma {:induction false} StepsInOrder(fields: seq<Field>, from: nat)
    requires fields != [] ==> from <= fields[0].at
    requires forall k | 0 <= k < |fields| :: InFile(fields[k], LENGTH)
    requires forall k | 0 < k < |fields| :: fields[k - 1].at + fields[k - 1].width <= fields[k].at
    ensures InOrder(fields, from, LENGTH)
    decreases |fields|
  {
    if fields == [] {
    } else {
      var rest := fields[1..];
      forall k | 0 < k < |rest| ensures rest[k - 1].at + rest[k - 1].width <= rest[k].at {
        assert fields[k].at + fields[k].width <= fields[k + 1].at;
      }
      StepsInOrder(rest, fields[0].at + fields[0].width);
    }
  }

  function FileOf(alignment: Word32, sizeOfImage: Word32, uninitialized: Word32, count: nat, s: Section, t: Section)
    : (file: seq<byte>)
    ensures |file| == LENGTH
  {
    FileFieldsInOrder(alignment, sizeOfImage, uninitialized, count, s, t);
    Spread(FileFields(alignment, sizeOfImage, uninitialized, count, s, t), 0, LENGTH);
    Written(LENGTH, FileFields(alignment, sizeOfImage, uninitialized, count, s, t))
  }

  function HeaderOf(s: Section): SectionHeader {
    SectionHeader(0, s.va, s.raw, s.pointer, FlagsOf(s.flags))
  }

  /** The headers the loader finds in the file. */
  function HeadersOf(alignment: Word32, sizeOfImage: Word32, uninitialized: Word32, count: nat, s: Section, t: Section)
    : Headers
    requires 1 <= count <= 2
  {
    Headers(PREFERRED, alignment, sizeOfImage, 0x200, 0, uninitialized, 0, false, Directory(0, 0), Directory(0, 0),
      if count == 1 then [HeaderOf(s)] else [HeaderOf(s), HeaderOf(t)])
  }

  /** A field that no entry of the list touches. */
  lemma ZeroField(alignment: Word32, sizeOfImage: Word32, uninitialized: Word32, count: nat, s: Section, t: Section,
      p: nat, w: nat)
    requires p + w <= LENGTH
    requires var fields := FileFields(alignment, sizeOfImage, uninitialized, count, s, t);
      forall k | 0 <= k < |fields| :: p + w <= fields[k].at || fields[k].at + fields[k].width <= p
    ensures Get(FileOf(alignment, sizeOfImage, uninitialized, count, s, t), p, w) == 0
  {
    hide FileFields;
    var fields := FileFields(alignment, sizeOfImage, uninitialized, count, s, t);
    FileFieldsInOrder(alignment, sizeOfImage, uninitialized, count, s, t);
    Spread(fields, 0, LENGTH);
    Untouched(LENGTH, fields, p, w);
  }

  lemma FieldAt(alignment: Word32, sizeOfImage: Word32, uninitialized: Word32, count: nat, s: Section, t: Section,
      k: nat)
    requires k < 19
    ensures var f := FileFields(alignment, sizeOfImage, uninitialized, count, s, t)[k];
      && f.at + f.width <= LENGTH
      && Get(FileOf(alignment, sizeOfImage, uninitialized, count, s, t), f.at, f.width) == f.value % Modulus(f.width)
  {
    hide FileFields;
    var fields := FileFields(alignment, sizeOfImage, uninitialized, count, s, t);
    FileFieldsInOrder(alignment, sizeOfImage, uninitialized, count, s, t);
    Spread(fields, 0, LENGTH);
    assert InFile(fields[k], LENGTH);
    ReadBack(LENGTH, fields, k);
  }

  lemma SectionsRead(alignment: Word32, sizeOfImage: Word32, uninitialized: Word32, count: nat, s: Section, t: Section)
    ensures var file := FileOf(alignment, sizeOfImage, uninitialized, count, s, t);
      && SectionAt(file, TABLE) == HeaderOf(s) && SectionAt(file, TABLE + SECTION_HEADER) == HeaderOf(t)
  {
    hide FileOf, Get, Modulus, FlagsOf;
    Moduli();
    ZeroField(alignment, sizeOfImage, uninitialized, count, s, t, TABLE + MISC, 4);
    ZeroField(alignment, sizeOfImage, uninitialized, count, s, t, TABLE + SECTION_HEADER + MISC, 4);
    FieldAt(alignment, sizeOfImage, uninitialized, count, s, t, 11);
    FieldAt(alignment, sizeOfImage, uninitialized, count, s, t, 12);
    FieldAt(alignment, sizeOfImage, uninitialized, count, s, t, 13);
    FieldAt(alignment, sizeOfImage, uninitialized, count, s, t, 14);
    FieldAt(alignment, sizeOfImage, uninitialized, count, s, t, 15);
    FieldAt(alignment, sizeOfImage, uninitialized, count, s, t, 16);
    FieldAt(alignment, sizeOfImage, uninitialized, count, s, t, 17);
    FieldAt(alignment, sizeOfImage, uninitialized, count, s, t, 18);
  }

  lemma SignaturesRead(alignment: Word32, sizeOfImage: Word32, uninitialized: Word32, count: nat, s: Section,
      t: Section)
    ensures FindHeaders(FileOf(alignment, sizeOfImage, uninitialized, count, s, t), AMD64) == PeAt(NT)
  {
    hide FileOf, Get, Modulus;
    Moduli();
    FieldAt(alignment, sizeOfImage, uninitialized, count, s, t, 0);
    FieldAt(alignment, sizeOfImage, uninitialized, count, s, t, 1);
    FieldAt(alignment, sizeOfImage, uninitialized, count, s, t, 2);
    FieldAt(alignment, sizeOfImage, uninitialized, count, s, t, 3);
  }

  lemma FieldsRead(alignment: Word32, sizeOfImage: Word32, uninitialized: Word32, count: nat, s: Section, t: Section)
    requires 1 <= count <= 2
    ensures var file := FileOf(alignment, sizeOfImage, uninitialized, count, s, t);
      && TableStart(file, NT) == TABLE && SectionCount(file, NT) == count
      && Qword(file, NT + IMAGE_BASE) == PREFERRED && Dword(file, NT + SECTION_ALIGNMENT) == alignment
      && Dword(file, NT + SIZE_OF_IMAGE) == sizeOfImage && Dword(file, NT + SIZE_OF_HEADERS) == 0x200
      && Dword(file, NT + SIZE_OF_UNINITIALIZED_DATA) == uninitialized
  {
    hide FileOf, Get, Modulus;
    Moduli();
    FieldAt(alignment, sizeOfImage, uninitialized, count, s, t, 4);
    FieldAt(alignment, sizeOfImage, uninitialized, count, s, t, 5);
    FieldAt(alignment, sizeOfImage, uninitialized, count, s, t, 6);
    FieldAt(alignment, sizeOfImage, uninitialized, count, s, t, 7);
    FieldAt(alignment, sizeOfImage, uninitialized, count, s, t, 8);
    FieldAt(alignment, sizeOfImage, uninitialized, count, s, t, 9);
    FieldAt(alignment, sizeOfImage, uninitialized, count, s, t, 10);
  }

  lemma ZerosRead(alignment: Word32, sizeOfImage: Word32, uninitialized: Word32, count: nat, s: Section, t: Section)
    ensures var file := FileOf(alignment, sizeOfImage, uninitialized, count, s, t);
      && Dword(file, NT + SIZE_OF_INITIALIZED_DATA) == 0 && Dword(file, NT + ADDRESS_OF_ENTRY_POINT) == 0
      && U16(file, NT + CHARACTERISTICS) == 0
      && DirectoryAt(file, NT + IMPORT_DIRECTORY) == Directory(0, 0)
      && DirectoryAt(file, NT + BASERELOC_DIRECTORY) == Directory(0, 0)
  {
    hide FileOf, Get;
    ZeroField(alignment, sizeOfImage, uninitialized, count, s, t, NT + SIZE_OF_INITIALIZED_DATA, 4);
    ZeroField(alignment, sizeOfImage, uninitialized, count, s, t, NT + ADDRESS_OF_ENTRY_POINT, 4);
    ZeroField(alignment, sizeOfImage, uninitialized, count, s, t, NT + CHARACTERISTICS, 2);
    ZeroField(alignment, sizeOfImage, uninitialized, count, s, t, NT + IMPORT_DIRECTORY, 4);
    ZeroField(alignment, sizeOfImage, uninitialized, count, s, t, NT + IMPORT_DIRECTORY + 4, 4);
    ZeroField(alignment, sizeOfImage, uninitialized, count, s, t, NT + BASERELOC_DIRECTORY, 4);
    ZeroField(alignment, sizeOfImage, uninitialized, count, s, t, NT + BASERELOC_DIRECTORY + 4, 4);
  }

  /** The loader finds in the file what was put into it. */
  lemma HeadersRead(alignment: Word32, sizeOfImage: Word32, uninitialized: Word32, count: nat, s: Section, t: Section)
    requires 1 <= count <= 2
    ensures var file := FileOf(alignment, sizeOfImage, uninitialized, count, s, t);
      && FindHeaders(file, AMD64) == PeAt(NT) && HasHeaders(file, NT)
      && TableStart(file, NT) == TABLE && SectionCount(file, NT) == count
      && HeadersAt(file, NT) == HeadersOf(alignment, sizeOfImage, uninitialized, count, s, t)
  {
    hide FileOf, Get, Modulus, FindHeaders, SectionAt, HeaderOf, Dword, Qword, U16, And, DirectoryAt, TableStart,
      SectionCount;
    SignaturesRead(alignment, sizeOfImage, uninitialized, count, s, t);
    FieldsRead(alignment, sizeOfImage, uninitialized, count, s, t);
    ZerosRead(alignment, sizeOfImage, uninitialized, count, s, t);
    SectionsRead(alignment, sizeOfImage, uninitialized, count, s, t);
    NoFlag();
    var file := FileOf(alignment, sizeOfImage, uninitialized, count, s, t);
    assert Table(file, TABLE, count) == HeadersOf(alignment, sizeOfImage, uninitialized, count, s, t).sections;
  }

  lemma NoFlag()
    ensures And(0, FILE_DLL) == 0
  {
  }
}
