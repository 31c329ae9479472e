/** The layout check of LoadLibrary and the copying of sections into the reserved image. */
module Sections {
  import opened Numbers
  import opened Bytes
  import opened Words
  import opened Os
  import opened PeHeaders

  // ----- Layout

  /** Number of bytes that are written for a section. */
  function WriteLength(s: SectionHeader, alignment: Word32): nat {
    if s.sizeOfRawData == 0 then alignment else s.sizeOfRawData
  }

  function EndOf(s: SectionHeader, alignment: Word32): nat {
    s.virtualAddress + WriteLength(s, alignment)
  }

  function LastEnd(sections: seq<SectionHeader>, alignment: Word32): (end: nat)
    ensures forall i | 0 <= i < |sections| :: EndOf(sections[i], alignment) <= end
    ensures end < 0x2_0000_0000
    ensures end == 0 || exists i | 0 <= i < |sections| :: EndOf(sections[i], alignment) == end
  {
    if sections == [] then 0 else
    var n := |sections| - 1;
    var rest := LastEnd(sections[..n], alignment);
    var end := EndOf(sections[n], alignment);
    if end > rest then end else rest
  }

  predicate LayoutOk(sections: seq<SectionHeader>, sizeOfImage: Word32, alignment: Word32) {
    && alignment % 2 == 0
    && AlignUp(sizeOfImage, alignment) == AlignUp(LastEnd(sections, alignment), alignment)
  }

  /** The layout check on the n section headers at offset t of the file. */
  method CheckLayout(file: seq<byte>, t: nat, n: nat, sizeOfImage: Word32, alignment: Word32)
    returns (ok: bool, alignedImageSize: nat)
    requires t + SECTION_HEADER * n <= |file|
    ensures ok <==> LayoutOk(Table(file, t, n), sizeOfImage, alignment)
    ensures ok ==> alignedImageSize == AlignUp(sizeOfImage, alignment)
  {
    hide SectionAt, AlignUp;
    alignedImageSize := 0;
    if alignment % 2 != 0 {
      return false, 0;
    }
    ghost var sections := Table(file, t, n);
    var lastSectionEnd := 0;
    for i := 0 to n
      invariant lastSectionEnd == LastEnd(sections[..i], alignment)
    {
      var s := SectionAt(file, t + SECTION_HEADER * i);
      var endOfSection;
      if s.sizeOfRawData == 0 {
        endOfSection := s.virtualAddress + alignment;
      } else {
        endOfSection := s.virtualAddress + s.sizeOfRawData;
      }
      if endOfSection > lastSectionEnd {
        lastSectionEnd := endOfSection;
      }
      assert sections[..i + 1][..i] == sections[..i];
    }
    assert sections[..n] == sections;
    alignedImageSize := AlignUp(sizeOfImage, alignment);
    ok := alignedImageSize == AlignUp(lastSectionEnd, alignment);
  }

  /** Everything that is written for s lies in the first size bytes. */
  predicate Inside(s: SectionHeader, alignment: Word32, size: nat) {
    EndOf(s, alignment) <= size || WriteLength(s, alignment) == 0
  }

  predicate AllInside(sections: seq<SectionHeader>, alignment: Word32, size: nat) {
    forall i | 0 <= i < |sections| :: Inside(sections[i], alignment, size)
  }

  /**
   The layout check bounds all copying, for every alignment but zero, power of two or not. With alignment
   zero both sides of the comparison are zero whatever the sections are, and the bound holds only when no
   section has raw data.
  */
  lemma LayoutBoundsCopying(sections: seq<SectionHeader>, sizeOfImage: Word32, alignment: Word32)
    requires LayoutOk(sections, sizeOfImage, alignment)
    ensures AllInside(sections, alignment, AlignUp(sizeOfImage, alignment))
      <==> alignment != 0 || forall i | 0 <= i < |sections| :: sections[i].sizeOfRawData == 0
  {
    if alignment != 0 {
      AlignUpCovers(LastEnd(sections, alignment), alignment);
    } else {
      AlignToZero(sizeOfImage);
      if i :| 0 <= i < |sections| && sections[i].sizeOfRawData != 0 {
        assert !Inside(sections[i], 0, 0);
      }
    }
  }

  // ----- Copying

  datatype CopyStatus =
    | Copied
    | Incomplete          // the guard sees that the file is too short
    | ReadsPastFile       // the guard, a 32-bit sum, has wrapped around and the read leaves the file
    | AllocationFailed
    | Stray               // the header or the place of the section lies outside the image

  /** The guard of the source and what the read behind it does. */
  function Examine(s: SectionHeader, fileSize: nat): (r: CopyStatus)
    ensures r.Copied? || r.Incomplete? || r.ReadsPastFile?
  {
    if s.sizeOfRawData == 0 then Copied
    else if fileSize < (s.pointerToRawData + s.sizeOfRawData) % W32 then Incomplete
    else if fileSize < s.pointerToRawData + s.sizeOfRawData then ReadsPastFile
    else Copied
  }

  /** What a section has to contain after loading. */
  function Contents(s: SectionHeader, file: seq<byte>, alignment: Word32): (c: seq<byte>)
    requires Examine(s, |file|).Copied?
    ensures |c| == WriteLength(s, alignment)
  {
    if s.sizeOfRawData == 0 then seq(alignment, i => 0)
    else file[s.pointerToRawData..s.pointerToRawData + s.sizeOfRawData]
  }

  /** Start of the page that holds an address: what a commit returns. */
  function PageBase(address: nat): nat { address - address % PAGE }

  /** The header after its section has been copied: the low half of the address the source remembers. */
  function Placed(s: SectionHeader, alignment: Word32, codeBase: nat): SectionHeader {
    var address := codeBase + s.virtualAddress;
    if s.sizeOfRawData == 0 then
      if alignment == 0 then s else s.(misc := LowHalf(address))
    else s.(misc := LowHalf(PageBase(address)))
  }

  function LowHalf(address: nat): (w: Word32) {
    LowHalfIs(address);
    And(address, 0xffff_ffff)
  }

  lemma LowHalfIs(address: nat)
    ensures And(address, 0xffff_ffff) == address % W32
  {
    hide And;
    PowersOfTwo();
    AndLow(address, 32);
  }

  function CopyOne(m: seq<byte>, s: SectionHeader, file: seq<byte>, alignment: Word32): (r: seq<byte>)
    requires Inside(s, alignment, |m|) && Examine(s, |file|).Copied?
    ensures |r| == |m|
  {
    if WriteLength(s, alignment) == 0 then m else Splice(m, s.virtualAddress, Contents(s, file, alignment))
  }

  /** Memory, headers and status after sections i.. have been copied. */
  function CopyFrom(m: seq<byte>, sections: seq<SectionHeader>, i: nat, file: seq<byte>, alignment: Word32,
      codeBase: nat): (r: (seq<byte>, seq<SectionHeader>, CopyStatus))
    requires i <= |sections| && AllInside(sections, alignment, |m|)
    ensures |r.0| == |m| && |r.1| == |sections|
    decreases |sections| - i
  {
    if i == |sections| then (m, sections, Copied)
    else if !Examine(sections[i], |file|).Copied? then (m, sections, Examine(sections[i], |file|))
    else
      CopyFrom(CopyOne(m, sections[i], file, alignment),
        sections[i := Placed(sections[i], alignment, codeBase)], i + 1, file, alignment, codeBase)
  }

  // ----- The code, on headers that lie in the image it writes to

  /** Remembers the low half of an address in the section header at p. */
  function StoreAddress(m: seq<byte>, p: nat, address: nat): (r: seq<byte>)
    requires p + SECTION_HEADER <= |m|
    ensures |r| == |m|
  {
    Set(m, p + MISC, 4, LowHalf(address))
  }

  /**
   One section: without raw data the address is remembered before the memory is cleared, with raw data after it
   is copied. So a section that covers its own header keeps or loses what was stored.
  */
  function CopyHere(m: seq<byte>, p: nat, s: SectionHeader, file: seq<byte>, alignment: Word32, codeBase: nat)
    : (r: seq<byte>)
    requires p + SECTION_HEADER <= |m| && Inside(s, alignment, |m|) && Examine(s, |file|).Copied?
    ensures |r| == |m|
  {
    var address := codeBase + s.virtualAddress;
    if s.sizeOfRawData != 0 then StoreAddress(CopyOne(m, s, file, alignment), p, PageBase(address))
    else if alignment == 0 then m
    else CopyOne(StoreAddress(m, p, address), s, file, alignment)
  }

  /** Memory and status after the section whose header lies at p. */
  function CopyStep(m: seq<byte>, p: nat, file: seq<byte>, alignment: Word32, codeBase: nat): (r: (seq<byte>,
      CopyStatus))
    ensures |r.0| == |m|
  {
    if p + SECTION_HEADER > |m| then (m, Stray) else
    var s := SectionAt(m, p);
    if Examine(s, |file|).Incomplete? then (m, Incomplete)
    else if !Inside(s, alignment, |m|) then (m, Stray)
    else if Examine(s, |file|).ReadsPastFile? then (m, ReadsPastFile)
    else (CopyHere(m, p, s, file, alignment, codeBase), Copied)
  }

  /** Memory and status after the sections whose headers lie at t, from the i-th to the n-th. */
  function CopyTable(m: seq<byte>, t: nat, n: nat, i: nat, file: seq<byte>, alignment: Word32, codeBase: nat)
    : (r: (seq<byte>, CopyStatus))
    requires i <= n
    ensures |r.0| == |m|
    decreases n - i
  {
    if i == n then (m, Copied)
    else
      var (m1, status) := CopyStep(m, t + SECTION_HEADER * i, file, alignment, codeBase);
      if status.Copied? then CopyTable(m1, t, n, i + 1, file, alignment, codeBase) else (m1, status)
  }

  /**
   Copies the sections in order. When the system refuses memory for one of them, the `done` sections before it
   have been copied and nothing else has changed.
  */
  method CopySections(image: array<byte>, nt: nat, file: seq<byte>, alignment: Word32, codeBase: nat,
      os: OperatingSystem)
    returns (r: CopyStatus, ghost done: nat)
    requires nt + OPTIONAL_HEADER <= image.Length
    modifies image, os`refusals
    ensures if r == AllocationFailed then
        && done < SectionCount(old(image[..]), nt)
        && os.refusals == old(os.refusals)
          + [Uncommitted(image[..], TableStart(old(image[..]), nt) + 40 * done, alignment, codeBase)]
      else os.refusals == old(os.refusals)
    ensures var t, n := TableStart(old(image[..]), nt), SectionCount(old(image[..]), nt);
      && done <= n
      && (r != AllocationFailed ==> (image[..], r) == CopyTable(old(image[..]), t, n, 0, file, alignment, codeBase))
      && (r == AllocationFailed ==>
            (image[..], Copied) == CopyTable(old(image[..]), t, done, 0, file, alignment, codeBase))
  {
    hide CopyStep, CopyTable, U16;
    var t, n := TableStart(image[..], nt), SectionCount(image[..], nt);
    CopyNone(image[..], t, n, file, alignment, codeBase);
    for i := 0 to n
      invariant (image[..], Copied) == CopyTable(old(image[..]), t, i, 0, file, alignment, codeBase)
      invariant CopyTable(old(image[..]), t, n, 0, file, alignment, codeBase)
        == CopyTable(image[..], t, n, i, file, alignment, codeBase)
      invariant os.refusals == old(os.refusals)
    {
      done := i;
      CopyNext(old(image[..]), image[..], t, n, i, file, alignment, codeBase);
      r := CopySection(image, t + SECTION_HEADER * i, file, alignment, codeBase, os);
      if !r.Copied? {
        return;
      }
    }
    r, done := Copied, n;
  }

  lemma CopyNone(m: seq<byte>, t: nat, n: nat, file: seq<byte>, alignment: Word32, codeBase: nat)
    ensures CopyTable(m, t, 0, 0, file, alignment, codeBase) == (m, Copied)
  {
  }

  /** What one more section means for the sections done and for those that remain. */
  lemma CopyNext(m0: seq<byte>, m: seq<byte>, t: nat, n: nat, i: nat, file: seq<byte>, alignment: Word32, codeBase: nat)
    requires i < n && (m, Copied) == CopyTable(m0, t, i, 0, file, alignment, codeBase)
    ensures var (m1, status) := CopyStep(m, t + SECTION_HEADER * i, file, alignment, codeBase);
      && CopyTable(m0, t, i + 1, 0, file, alignment, codeBase) == (m1, status)
      && CopyTable(m, t, n, i, file, alignment, codeBase)
        == if status.Copied? then CopyTable(m1, t, n, i + 1, file, alignment, codeBase) else (m1, status)
  {
    hide CopyStep;
    CopyAppend(m0, m, t, 0, i, file, alignment, codeBase);
  }

  lemma {:induction false} CopyAppend(m0: seq<byte>, m: seq<byte>, t: nat, j: nat, i: nat, file: seq<byte>,
      alignment: Word32, codeBase: nat)
    requires j <= i && (m, Copied) == CopyTable(m0, t, i, j, file, alignment, codeBase)
    ensures CopyTable(m0, t, i + 1, j, file, alignment, codeBase)
      == CopyStep(m, t + SECTION_HEADER * i, file, alignment, codeBase)
    decreases i - j
  {
    hide CopyStep;
    if j < i {
      var m1 := CopyStep(m0, t + SECTION_HEADER * j, file, alignment, codeBase).0;
      CopyAppend(m1, m, t, j + 1, i, file, alignment, codeBase);
    } else {
      var step := CopyStep(m, t + SECTION_HEADER * i, file, alignment, codeBase);
      assert CopyTable(step.0, t, i + 1, i + 1, file, alignment, codeBase) == (step.0, Copied);
    }
  }

  /**
   The commit that was refused for the section whose header lies at p: of its raw bytes, or of one alignment when it has
   none.
  */
  function Uncommitted(m: seq<byte>, p: nat, alignment: Word32, codeBase: nat): Refusal {
    if p + 40 > |m| then NotCommitted(0, 0)
    else NotCommitted(codeBase + U32(m, p + 12), if U32(m, p + 16) == 0 then alignment else U32(m, p + 16))
  }

  lemma PlaceFields(m: seq<byte>, p: nat)
    requires p + 40 <= |m|
    ensures SectionAt(m, p).virtualAddress == U32(m, p + 12) && SectionAt(m, p).sizeOfRawData == U32(m, p + 16)
  {
    hide U32;
  }

  /** Copies the section whose header lies at p. */
  method CopySection(image: array<byte>, p: nat, file: seq<byte>, alignment: Word32, codeBase: nat, os: OperatingSystem)
    returns (r: CopyStatus)
    modifies image, os`refusals
    ensures if r == AllocationFailed then
        os.refusals == old(os.refusals) + [Uncommitted(image[..], p, alignment, codeBase)]
      else os.refusals == old(os.refusals)
    ensures r == AllocationFailed ==> image[..] == old(image[..])
    ensures r != AllocationFailed ==> (image[..], r) == CopyStep(old(image[..]), p, file, alignment, codeBase)
  {
    hide LowHalf, SectionAt, Get, Splice;
    if p + SECTION_HEADER > image.Length {
      return Stray;
    }
    var s := SectionAt(image[..], p);
    PlaceFields(image[..], p);
    var va := s.virtualAddress;
    if s.sizeOfRawData == 0 {
      if alignment == 0 {
        return Copied;
      }
      var ok := os.Commit(codeBase + va, alignment);
      if !ok {
        return AllocationFailed;
      }
      if va + alignment > image.Length {
        return Stray;
      }
      Put(image, p + MISC, 4, LowHalf(codeBase + va));
      Clear(image, va, alignment);
      return Copied;
    }
    if |file| < (s.pointerToRawData + s.sizeOfRawData) % W32 {
      return Incomplete;
    }
    var ok := os.Commit(codeBase + va, s.sizeOfRawData);
    if !ok {
      return AllocationFailed;
    }
    if va + s.sizeOfRawData > image.Length {
      return Stray;
    }
    if |file| < s.pointerToRawData + s.sizeOfRawData {
      return ReadsPastFile;
    }
    CopyBytes(image, va, file, s.pointerToRawData, s.sizeOfRawData);
    Put(image, p + MISC, 4, LowHalf(PageBase(codeBase + va)));
    r := Copied;
  }

  method Clear(image: array<byte>, va: nat, size: nat)
    requires va + size <= image.Length
    modifies image
    ensures image[..] == Splice(old(image[..]), va, seq(size, k => 0))
  {
    hide Splice;
    ClearNone(image[..], va);
    for j := 0 to size
      invariant image[..] == Splice(old(image[..]), va, seq(j, k => 0))
    {
      ClearOne(old(image[..]), va, j);
      image[va + j] := 0;
    }
  }

  lemma ClearNone(m: seq<byte>, va: nat)
    requires va <= |m|
    ensures Splice(m, va, seq(0, k => 0)) == m
  {
  }

  lemma ClearOne(m: seq<byte>, va: nat, j: nat)
    requires va + j < |m|
    ensures Splice(m, va, seq(j + 1, k => 0)) == Splice(m, va, seq(j, k => 0))[va + j := 0]
  {
  }

  method CopyBytes(image: array<byte>, va: nat, file: seq<byte>, from: nat, size: nat)
    requires va + size <= image.Length && from + size <= |file|
    modifies image
    ensures image[..] == Splice(old(image[..]), va, file[from..from + size])
  {
    forall j | 0 <= j < size {
      image[va + j] := file[from + j];
    }
  }

  // ----- What copying achieves

  predicate Disjoint(s: SectionHeader, t: SectionHeader, alignment: Word32) {
    EndOf(s, alignment) <= t.virtualAddress || EndOf(t, alignment) <= s.virtualAddress
    || WriteLength(s, alignment) == 0 || WriteLength(t, alignment) == 0
  }

  predicate AllDisjoint(sections: seq<SectionHeader>, alignment: Word32) {
    forall i, j | 0 <= i < j < |sections| :: Disjoint(sections[i], sections[j], alignment)
  }

  predicate WritesTo(s: SectionHeader, alignment: Word32, p: int) {
    s.virtualAddress <= p < EndOf(s, alignment)
  }

  predicate Holds(m: seq<byte>, s: SectionHeader, file: seq<byte>, alignment: Word32)
    requires Inside(s, alignment, |m|) && Examine(s, |file|).Copied?
  {
    WriteLength(s, alignment) == 0 || m[s.virtualAddress..EndOf(s, alignment)] == Contents(s, file, alignment)
  }

  /** Sections i.. hold their contents, their headers remember the place, and all else is kept. */
  ghost predicate Achieved(m: seq<byte>, m': seq<byte>, sections: seq<SectionHeader>, sections': seq<SectionHeader>,
      i: nat, file: seq<byte>, alignment: Word32, codeBase: nat)
  {
    && |m'| == |m| && |sections'| == |sections|
    && AllInside(sections, alignment, |m|)
    && (forall k | i <= k < |sections| ::
          && Examine(sections[k], |file|).Copied?
          && Holds(m', sections[k], file, alignment)
          && sections'[k] == Placed(sections[k], alignment, codeBase))
    && (forall k | 0 <= k < i && k < |sections| :: sections'[k] == sections[k])
    && (forall p | 0 <= p < |m| && (forall k | i <= k < |sections| :: !WritesTo(sections[k], alignment, p)) ::
          m'[p] == m[p])
  }

  /**
   Disjoint sections are copied exactly when each passes its examination. Then every section holds its
   file bytes, or zeros when it has no raw data, every other byte of the image is kept, and every header
   remembers the place of its section.
  */
  lemma {:induction false} SectionsHoldTheirContents(m: seq<byte>, sections: seq<SectionHeader>, i: nat,
      file: seq<byte>, alignment: Word32, codeBase: nat)
    requires i <= |sections| && AllInside(sections, alignment, |m|) && AllDisjoint(sections, alignment)
    ensures var (m', sections', status) := CopyFrom(m, sections, i, file, alignment, codeBase);
      && (status.Copied? <==> forall k | i <= k < |sections| :: Examine(sections[k], |file|).Copied?)
      && (status.Copied? ==> Achieved(m, m', sections, sections', i, file, alignment, codeBase))
    decreases |sections| - i
  {
    hide Examine, Contents, Placed, CopyOne, Holds;
    if i == |sections| || !Examine(sections[i], |file|).Copied? {
    } else {
      hide Achieved;
      var m1 := CopyOne(m, sections[i], file, alignment);
      var sections1 := sections[i := Placed(sections[i], alignment, codeBase)];
      PlacedKeeps(sections[i], alignment, codeBase);
      SectionsHoldTheirContents(m1, sections1, i + 1, file, alignment, codeBase);
      var (m', sections', status) := CopyFrom(m1, sections1, i + 1, file, alignment, codeBase);
      assert forall k | i + 1 <= k < |sections| :: sections1[k] == sections[k];
      if status.Copied? {
        AchievedStep(m, m', sections, sections', i, file, alignment, codeBase);
      }
    }
  }

  lemma AchievedStep(m: seq<byte>, m': seq<byte>, sections: seq<SectionHeader>, sections': seq<SectionHeader>,
      i: nat, file: seq<byte>, alignment: Word32, codeBase: nat)
    requires i < |sections| && AllInside(sections, alignment, |m|) && AllDisjoint(sections, alignment)
    requires Examine(sections[i], |file|).Copied?
    requires Achieved(CopyOne(m, sections[i], file, alignment), m',
      sections[i := Placed(sections[i], alignment, codeBase)], sections', i + 1, file, alignment, codeBase)
    ensures Achieved(m, m', sections, sections', i, file, alignment, codeBase)
  {
    hide Examine, Contents, Placed, CopyOne;
    var s := sections[i];
    var m1 := CopyOne(m, s, file, alignment);
    var sections1 := sections[i := Placed(s, alignment, codeBase)];
    CopiedHere(m, s, file, alignment);
    assert forall k | i + 1 <= k < |sections| :: sections1[k] == sections[k];
    if WriteLength(s, alignment) > 0 {
      forall p | WritesTo(s, alignment, p) ensures m'[p] == m1[p] {
        forall k | i + 1 <= k < |sections| ensures !WritesTo(sections1[k], alignment, p) {
          assert Disjoint(sections[i], sections[k], alignment);
        }
      }
      assert m'[s.virtualAddress..EndOf(s, alignment)] == m1[s.virtualAddress..EndOf(s, alignment)];
    }
    forall p | 0 <= p < |m| && forall k | i <= k < |sections| :: !WritesTo(sections[k], alignment, p)
      ensures m'[p] == m[p]
    {
      assert !WritesTo(sections[i], alignment, p);
      forall k | i + 1 <= k < |sections| ensures !WritesTo(sections1[k], alignment, p) {
        assert !WritesTo(sections[k], alignment, p);
      }
    }
  }

  lemma PlacedKeeps(s: SectionHeader, alignment: Word32, codeBase: nat)
    ensures var t := Placed(s, alignment, codeBase);
      t.virtualAddress == s.virtualAddress && t.sizeOfRawData == s.sizeOfRawData
      && t.pointerToRawData == s.pointerToRawData && t.characteristics == s.characteristics
  {
  }

  lemma CopiedHere(m: seq<byte>, s: SectionHeader, file: seq<byte>, alignment: Word32)
    requires Inside(s, alignment, |m|) && Examine(s, |file|).Copied?
    ensures Holds(CopyOne(m, s, file, alignment), s, file, alignment)
    ensures forall p | 0 <= p < |m| && !WritesTo(s, alignment, p) :: CopyOne(m, s, file, alignment)[p] == m[p]
  {
    if WriteLength(s, alignment) > 0 {
      SpliceAt(m, s.virtualAddress, Contents(s, file, alignment));
    }
  }

  /**
   The guard rejects every read that would leave the file exactly when the 32-bit sum does not wrap, or the
   file is long enough anyway.
  */
  lemma GuardIsExact(s: SectionHeader, fileSize: nat)
    ensures Examine(s, fileSize).Copied? <==>
      s.sizeOfRawData == 0 || s.pointerToRawData + s.sizeOfRawData <= fileSize
    ensures var end := s.pointerToRawData + s.sizeOfRawData;
      Examine(s, fileSize).ReadsPastFile? <==> s.sizeOfRawData != 0 && W32 <= end && end - W32 <= fileSize < end
  {
  }

  /** What is accepted: an even alignment, and an image that ends, rounded up, where the last section does. */
  lemma LayoutExactly(sections: seq<SectionHeader>, sizeOfImage: Word32, alignment: Word32, end: nat)
    requires end < 0x2_0000_0000
    requires forall i | 0 <= i < |sections| ::
      var s := sections[i]; s.virtualAddress + (if s.sizeOfRawData == 0 then alignment else s.sizeOfRawData) <= end
    requires end == 0 || exists i | 0 <= i < |sections| ::
      var s := sections[i]; s.virtualAddress + (if s.sizeOfRawData == 0 then alignment else s.sizeOfRawData) == end
    ensures LayoutOk(sections, sizeOfImage, alignment) <==>
      alignment % 2 == 0 && AlignUp(sizeOfImage, alignment) == AlignUp(end, alignment)
  {
    hide AlignUp;
    var last := LastEnd(sections, alignment);
    if i :| 0 <= i < |sections| && EndOf(sections[i], alignment) == last {
    }
    if end > 0 {
      var i :| 0 <= i < |sections| && EndOf(sections[i], alignment) == end;
    }
    assert last == end;
  }

  /** With raw data, the address is stored last: the header has it, whatever the section covers. */
  lemma AddressIsStored(m: seq<byte>, p: nat, s: SectionHeader, file: seq<byte>, alignment: Word32, codeBase: nat)
    requires p + 40 <= |m| && Inside(s, alignment, |m|) && Examine(s, |file|).Copied? && s.sizeOfRawData != 0
    ensures var address := codeBase + s.virtualAddress;
      U32(CopyHere(m, p, s, file, alignment, codeBase), p + 8) == (address - address % 0x1000) % 0x1_0000_0000
  {
    hide And, Get, Modulus, Set, CopyOne, Examine, PageBase;
    StoredAddress(CopyOne(m, s, file, alignment), p, PageBase(codeBase + s.virtualAddress));
    PageBaseIs(codeBase + s.virtualAddress);
  }

  lemma PageBaseIs(address: nat)
    ensures PageBase(address) == address - address % 0x1000
  {
  }

  lemma StoredAddress(m: seq<byte>, p: nat, address: nat)
    requires p + 40 <= |m|
    ensures U32(StoreAddress(m, p, address), p + 8) == address % 0x1_0000_0000
  {
    hide And, Get, Modulus, Set;
    Moduli();
    LowHalfIs(address);
    GetOfSet(m, p + MISC, 4, LowHalf(address));
    SmallMod(LowHalf(address), W32);
  }

  /** Without raw data, the section is cleared last: one that covers its own header loses its address. */
  lemma AddressIsCleared(m: seq<byte>, p: nat, s: SectionHeader, file: seq<byte>, alignment: Word32, codeBase: nat)
    requires p + 40 <= |m| && Inside(s, alignment, |m|) && s.sizeOfRawData == 0
    requires s.virtualAddress <= p + 8 && p + 12 <= s.virtualAddress + alignment
    ensures U32(CopyHere(m, p, s, file, alignment, codeBase), p + 8) == 0
  {
    hide LowHalf, Get, Set, CopyOne;
    ClearedField(StoreAddress(m, p, codeBase + s.virtualAddress), s, file, alignment, p + 8);
  }

  lemma ClearedField(m: seq<byte>, s: SectionHeader, file: seq<byte>, alignment: Word32, q: nat)
    requires s.sizeOfRawData == 0 && s.virtualAddress + alignment <= |m|
    requires s.virtualAddress <= q && q + 4 <= s.virtualAddress + alignment
    ensures U32(CopyOne(m, s, file, alignment), q) == 0
  {
    hide Value;
    var m' := CopyOne(m, s, file, alignment);
    SpliceAt(m, s.virtualAddress, Contents(s, file, alignment));
    forall k | q <= k < q + 4 ensures m'[k] == 0 {
      assert m'[s.virtualAddress..s.virtualAddress + alignment][k - s.virtualAddress] == 0;
    }
    LittleEndian(m', q);
    LittleEndian(m', q + 2);
  }

  // ----- Headers that no section covers

  /** Nothing of the section is written in lo..hi. */
  predicate ClearOf(s: SectionHeader, alignment: Word32, lo: nat, hi: nat) {
    EndOf(s, alignment) <= lo || hi <= s.virtualAddress || WriteLength(s, alignment) == 0
  }

  predicate AllClearOf(sections: seq<SectionHeader>, alignment: Word32, lo: nat, hi: nat) {
    forall i | 0 <= i < |sections| :: ClearOf(sections[i], alignment, lo, hi)
  }

  lemma CopyKeeps(m: seq<byte>, s: SectionHeader, file: seq<byte>, alignment: Word32, lo: nat, hi: nat)
    requires Inside(s, alignment, |m|) && Examine(s, |file|).Copied? && ClearOf(s, alignment, lo, hi) && lo <= hi <= |m|
    ensures Same(m, CopyOne(m, s, file, alignment), lo, hi)
  {
    if WriteLength(s, alignment) > 0 {
      SpliceAt(m, s.virtualAddress, Contents(s, file, alignment));
    }
  }

  lemma CopyAgrees(m: seq<byte>, m': seq<byte>, s: SectionHeader, file: seq<byte>, alignment: Word32, lo: nat, hi: nat)
    requires Agree(m, m', lo, hi) && Inside(s, alignment, |m|) && Examine(s, |file|).Copied?
    ensures Agree(CopyOne(m, s, file, alignment), CopyOne(m', s, file, alignment), lo, hi)
  {
    if WriteLength(s, alignment) > 0 {
      SpliceAt(m, s.virtualAddress, Contents(s, file, alignment));
      SpliceAt(m', s.virtualAddress, Contents(s, file, alignment));
    }
  }

  /** Storing in one header changes that field of that header only. */
  lemma StoreInTable(m: seq<byte>, t: nat, n: nat, i: nat, w: Word32)
    requires t + SECTION_HEADER * n <= |m| && i < n
    ensures var m' := Set(m, t + SECTION_HEADER * i + MISC, 4, w); var sections := Table(m, t, n);
      && Table(m', t, n) == sections[i := sections[i].(misc := w)]
      && Agree(m, m', t, t + SECTION_HEADER * n)
  {
    hide Get, Modulus, SectionAt, Le;
    var p := t + SECTION_HEADER * i + MISC;
    var m' := Set(m, p, 4, w);
    SpliceAt(m, p, Le(w, 4));
    forall j | 0 <= j < n
      ensures SectionAt(m', t + SECTION_HEADER * j)
        == if j == i then SectionAt(m, t + SECTION_HEADER * j).(misc := w) else SectionAt(m, t + SECTION_HEADER * j)
    {
      var q := t + SECTION_HEADER * j;
      if j == i {
        StoreInHeader(m, q, w);
      } else {
        SameSection(m, m', q, q + SECTION_HEADER, q);
      }
    }
  }

  lemma StoreInHeader(m: seq<byte>, p: nat, w: Word32)
    requires p + SECTION_HEADER <= |m|
    ensures SectionAt(Set(m, p + MISC, 4, w), p) == SectionAt(m, p).(misc := w)
  {
    hide Get, Modulus, FlagsOf, Set;
    GetOfSet(m, p + MISC, 4, w);
    Moduli();
    GetElsewhere(m, p + MISC, 4, w, p + VIRTUAL_ADDRESS, 4);
    GetElsewhere(m, p + MISC, 4, w, p + SIZE_OF_RAW_DATA, 4);
    GetElsewhere(m, p + MISC, 4, w, p + POINTER_TO_RAW_DATA, 4);
    GetElsewhere(m, p + MISC, 4, w, p + SECTION_CHARACTERISTICS, 4);
  }

  /** The image and its headers on the one hand, memory and headers kept apart on the other. */
  ghost predicate Mirrors(m: seq<byte>, t: nat, n: nat, parted: seq<byte>, sections: seq<SectionHeader>) {
    && t + SECTION_HEADER * n <= |m|
    && Agree(parted, m, t, t + SECTION_HEADER * n)
    && sections == Table(m, t, n)
  }

  lemma MirrorStep(m: seq<byte>, t: nat, n: nat, parted: seq<byte>, sections: seq<SectionHeader>, i: nat,
      file: seq<byte>, alignment: Word32, codeBase: nat)
    requires Mirrors(m, t, n, parted, sections) && i < n
    requires Inside(sections[i], alignment, |m|) && Examine(sections[i], |file|).Copied?
    requires ClearOf(sections[i], alignment, t, t + SECTION_HEADER * n)
    ensures var s := sections[i]; var m' := CopyHere(m, t + SECTION_HEADER * i, s, file, alignment, codeBase);
      Mirrors(m', t, n, CopyOne(parted, s, file, alignment), sections[i := Placed(s, alignment, codeBase)])
  {
    hide SectionAt, LowHalf, Examine, Contents, CopyOne, Set;
    var s, p, hi := sections[i], t + SECTION_HEADER * i, t + SECTION_HEADER * n;
    var address := codeBase + s.virtualAddress;
    CopyAgrees(parted, m, s, file, alignment, t, hi);
    if s.sizeOfRawData != 0 {
      var m1 := CopyOne(m, s, file, alignment);
      CopyKeeps(m, s, file, alignment, t, hi);
      SameSections(m, m1, t, hi, t, n);
      StoreInTable(m1, t, n, i, LowHalf(PageBase(address)));
    } else if alignment != 0 {
      var m1 := StoreAddress(m, p, address);
      StoreInTable(m, t, n, i, LowHalf(address));
      CopyAgrees(parted, m1, s, file, alignment, t, hi);
      CopyKeeps(m1, s, file, alignment, t, hi);
      SameSections(m1, CopyOne(m1, s, file, alignment), t, hi, t, n);
    } else {
      NothingCopied(m, parted, s, file);
    }
  }

  lemma NothingCopied(m: seq<byte>, parted: seq<byte>, s: SectionHeader, file: seq<byte>)
    requires s.sizeOfRawData == 0 && |m| == |parted|
    ensures CopyOne(parted, s, file, 0) == parted
  {
  }

  /**
   Copying sections that keep off the section headers does to image and headers what it does to memory and headers
   kept apart.
  */
  lemma {:induction false} CopyMirrors(m: seq<byte>, t: nat, n: nat, parted: seq<byte>, sections: seq<SectionHeader>,
      i: nat, file: seq<byte>, alignment: Word32, codeBase: nat)
    requires Mirrors(m, t, n, parted, sections) && i <= n && AllInside(sections, alignment, |m|)
    requires AllClearOf(sections, alignment, t, t + SECTION_HEADER * n)
    ensures var (m', status) := CopyTable(m, t, n, i, file, alignment, codeBase);
      var (parted', placed, status') := CopyFrom(parted, sections, i, file, alignment, codeBase);
      && status == status'
      && (status.Copied? ==> Mirrors(m', t, n, parted', placed))
    decreases n - i
  {
    hide SectionAt, Examine, CopyOne, CopyHere, Placed, ClearOf;
    if i == n {
    } else if Examine(sections[i], |file|).Copied? {
      var s := sections[i];
      MirrorStep(m, t, n, parted, sections, i, file, alignment, codeBase);
      PlacedKeeps(s, alignment, codeBase);
      var m1 := CopyHere(m, t + SECTION_HEADER * i, s, file, alignment, codeBase);
      var sections1 := sections[i := Placed(s, alignment, codeBase)];
      StillClear(sections, i, Placed(s, alignment, codeBase), alignment, t, t + SECTION_HEADER * n);
      CopyMirrors(m1, t, n, CopyOne(parted, s, file, alignment), sections1, i + 1, file, alignment, codeBase);
    }
  }

  lemma StillClear(sections: seq<SectionHeader>, i: nat, s: SectionHeader, alignment: Word32, lo: nat, hi: nat)
    requires i < |sections| && AllClearOf(sections, alignment, lo, hi)
    requires s.virtualAddress == sections[i].virtualAddress && s.sizeOfRawData == sections[i].sizeOfRawData
    ensures AllClearOf(sections[i := s], alignment, lo, hi)
  {
  }

  // ----- Which section a byte comes from

  /** The byte i of a section: read from the file, or zero in a section without raw data. */
  predicate IsByteOf(b: byte, s: SectionHeader, file: seq<byte>, i: int) {
    if s.sizeOfRawData == 0 then b == 0
    else 0 <= s.pointerToRawData + i < |file| && b == file[s.pointerToRawData + i]
  }

  /** Section k, from the i-th on, is the last that is written to p. */
  predicate LastOver(sections: seq<SectionHeader>, alignment: Word32, p: int, i: nat, k: int) {
    && i <= k < |sections| && WritesTo(sections[k], alignment, p)
    && forall j | k < j < |sections| :: !WritesTo(sections[j], alignment, p)
  }

  predicate NoneOver(sections: seq<SectionHeader>, alignment: Word32, p: int, i: nat) {
    forall k | i <= k < |sections| :: !WritesTo(sections[k], alignment, p)
  }

  lemma {:induction false} SomeLast(sections: seq<SectionHeader>, alignment: Word32, p: int, i: nat) returns (k: int)
    requires i <= |sections|
    ensures NoneOver(sections, alignment, p, i) || LastOver(sections, alignment, p, i, k)
    decreases |sections| - i
  {
    hide WritesTo;
    k := i;
    if i < |sections| {
      k := SomeLast(sections, alignment, p, i + 1);
      if NoneOver(sections, alignment, p, i + 1) {
        k := i;
      }
    }
  }

  /** b comes from the last section, from the i-th on, that is written to p; without one it is the byte before. */
  predicate FromLast(b: byte, before: byte, sections: seq<SectionHeader>, i: nat, file: seq<byte>, alignment: Word32,
      p: nat)
  {
    && (NoneOver(sections, alignment, p, i) ==> b == before)
    && (forall k | i <= k < |sections| && LastOver(sections, alignment, p, i, k) ::
          IsByteOf(b, sections[k], file, p - sections[k].virtualAddress))
  }

  lemma {:induction false} LastWriterWins(m: seq<byte>, sections: seq<SectionHeader>, i: nat, file: seq<byte>,
      alignment: Word32, codeBase: nat, p: nat)
    requires i <= |sections| && AllInside(sections, alignment, |m|) && p < |m|
    requires CopyFrom(m, sections, i, file, alignment, codeBase).2.Copied?
    ensures FromLast(CopyFrom(m, sections, i, file, alignment, codeBase).0[p], m[p], sections, i, file, alignment, p)
    decreases |sections| - i
  {
    hide Examine, CopyOne, Placed, WritesTo, IsByteOf, FromLast;
    if i == |sections| {
      NothingLast(m[p], sections, file, alignment, p);
    } else {
      var s, sections1 := sections[i], sections[i := Placed(sections[i], alignment, codeBase)];
      PlacedKeeps(s, alignment, codeBase);
      var m1 := CopyOne(m, s, file, alignment);
      ByteOfOne(m, s, file, alignment, p);
      LastWriterWins(m1, sections1, i + 1, file, alignment, codeBase, p);
      var b := CopyFrom(m1, sections1, i + 1, file, alignment, codeBase).0[p];
      LastStep(b, m1[p], m[p], sections, sections1, i, file, alignment, p);
    }
  }

  lemma NothingLast(b: byte, sections: seq<SectionHeader>, file: seq<byte>, alignment: Word32, p: nat)
    ensures FromLast(b, b, sections, |sections|, file, alignment, p)
  {
  }

  lemma ByteOfOne(m: seq<byte>, s: SectionHeader, file: seq<byte>, alignment: Word32, p: nat)
    requires Inside(s, alignment, |m|) && Examine(s, |file|).Copied? && p < |m|
    ensures var b := CopyOne(m, s, file, alignment)[p];
      if WritesTo(s, alignment, p) then IsByteOf(b, s, file, p - s.virtualAddress) else b == m[p]
  {
    if WriteLength(s, alignment) > 0 {
      SpliceAt(m, s.virtualAddress, Contents(s, file, alignment));
    }
  }

  lemma LastStep(b: byte, between: byte, before: byte, sections: seq<SectionHeader>, sections1: seq<SectionHeader>,
      i: nat, file: seq<byte>, alignment: Word32, p: nat)
    requires i < |sections| == |sections1| && forall k | i < k < |sections| :: sections1[k] == sections[k]
    requires FromLast(b, between, sections1, i + 1, file, alignment, p)
    requires var s := sections[i];
      if WritesTo(s, alignment, p) then IsByteOf(between, s, file, p - s.virtualAddress) else between == before
    ensures FromLast(b, before, sections, i, file, alignment, p)
  {
    hide WritesTo, IsByteOf;
    if NoneOver(sections1, alignment, p, i + 1) {
      assert b == between;
    }
    forall k | i <= k < |sections| && LastOver(sections, alignment, p, i, k)
      ensures IsByteOf(b, sections[k], file, p - sections[k].virtualAddress)
    {
      if k > i {
        assert LastOver(sections1, alignment, p, i + 1, k);
      } else {
        assert NoneOver(sections1, alignment, p, i + 1);
      }
    }
  }
}
