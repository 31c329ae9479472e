/** LoadLibrary, Free and check4GBBoundaries: what a module holds of the system, and how its image is built. */
module Loader {
  import opened Numbers
  import opened Bytes
  import opened Words
  import opened Wrappers
  import opened Os
  import opened PeHeaders
  import opened Sections
  import opened Finalize
  import opened PageGroups
  import opened Ledger
  import opened Imports
  import Relocation

  /** Panicked stands for an access outside the image or the file, and for a run-time panic. */
  datatype LoadResult = Loaded | Refused | Panicked

  /** The machine the process runs on: AMD64 or ARM64. */
  type Machine = m: nat | m == 0x8664 || m == 0xaa64 witness 0x8664

  function ImageSize(h: Headers): nat { AlignUp(h.sizeOfImage, h.sectionAlignment) }

  // ----- The headers of the file

  /** Where the checks of the file find its NT headers, or how they end. */
  datatype Search = NotPe | OutsideFile | PeAt(nt: nat)

  /** The signed 32-bit offset of the NT headers, as a 64-bit word. */
  function SignExtended(w: Word32): nat {
    if w < 0x8000_0000 then w else w + (W64 - W32)
  }

  /** An offset just below zero wraps past the size check and is read in front of the file. */
  function FindHeaders(file: seq<byte>, machine: Machine): (r: Search)
    ensures r.PeAt? ==> r.nt + NT_HEADERS <= |file|
  {
    if |file| == 0 then OutsideFile
    else if |file| < DOS_HEADER || U16(file, 0) != DOS_SIGNATURE then NotPe
    else
      var lfanew := SignExtended(Dword(file, LFANEW));
      if |file| < (lfanew + NT_HEADERS) % W64 then NotPe
      else if |file| < lfanew + NT_HEADERS then OutsideFile
      else if U32(file, lfanew) != NT_SIGNATURE || U16(file, lfanew + MACHINE) != machine then NotPe
      else PeAt(lfanew)
  }

  /**
   A file, no longer than the language allows, is one for the machine with its NT headers at nt: the signatures MZ and
   PE are there, and there are enough bytes behind the offset that lies at 60.
  */
  lemma FoundExactly(file: seq<byte>, machine: Machine, nt: nat)
    requires |file| < 0x8000_0000_0000_0000
    ensures FindHeaders(file, machine) == PeAt(nt) <==>
      && |file| >= 64 && file[0] == 0x4d && file[1] == 0x5a
      && nt == U32(file, 60) < 0x8000_0000 && nt + 264 <= |file|
      && file[nt] == 0x50 && file[nt + 1] == 0x45 && file[nt + 2] == 0 && file[nt + 3] == 0
      && U16(file, nt + 4) == machine
  {
    hide U16, U32;
    if |file| >= 64 {
      TwoCharacters(file, 0, 0x4d, 0x5a);
      var w := U32(file, 60);
      assert w == Dword(file, LFANEW);
      if w < 0x8000_0000 {
        SmallMod(w + 264, W64);
        if w + 264 <= |file| {
          Characters(file, w);
        }
      }
    }
  }

  lemma TwoCharacters(m: seq<byte>, p: nat, a: byte, b: byte)
    requires p + 2 <= |m|
    ensures U16(m, p) == a as nat + b as nat * 0x100 <==> m[p] == a && m[p + 1] == b
  {
    hide U16;
    LittleEndian(m, p);
  }

  lemma Characters(m: seq<byte>, p: nat)
    requires p + 4 <= |m|
    ensures U32(m, p) == NT_SIGNATURE <==> m[p] == 0x50 && m[p + 1] == 0x45 && m[p + 2] == 0 && m[p + 3] == 0
  {
    hide U16, U32;
    LittleEndian(m, p);
    LittleEndian(m, p + 2);
    TwoCharacters(m, p, 0x50, 0x45);
    TwoCharacters(m, p + 2, 0, 0);
  }

  /** The file passes all checks that come before the module is created. */
  predicate HasPe(file: seq<byte>, machine: Machine) {
    && FindHeaders(file, machine).PeAt?
    && var nt := FindHeaders(file, machine).nt;
    && HasHeaders(file, nt)
    && var h := HeadersAt(file, nt);
    && LayoutOk(h.sections, h.sizeOfImage, h.sectionAlignment)
  }

  /** An image that is not empty has sections and an alignment. */
  lemma NotEmpty(h: Headers)
    requires LayoutOk(h.sections, h.sizeOfImage, h.sectionAlignment) && ImageSize(h) > 0
    ensures |h.sections| > 0 && h.sectionAlignment > 0
    ensures AllInside(h.sections, h.sectionAlignment, ImageSize(h))
  {
    hide AlignUp;
    AlignToZero(h.sizeOfImage);
    AlignUpZero(h.sectionAlignment);
    LayoutBoundsCopying(h.sections, h.sizeOfImage, h.sectionAlignment);
  }

  // ----- The image a successful load builds

  /** The headers of the file fit into the image, which has room for the field the base is stored in. */
  predicate Fits(file: seq<byte>, nt: nat, h: Headers) {
    h.sizeOfHeaders <= |file| && h.sizeOfHeaders <= ImageSize(h) && nt + IMAGE_BASE + 8 <= ImageSize(h)
  }

  /** Freshly committed memory with the headers copied to its start. */
  function HeadersCopied(file: seq<byte>, h: Headers): (m: seq<byte>)
    requires h.sizeOfHeaders <= |file| && h.sizeOfHeaders <= ImageSize(h)
    ensures |m| == ImageSize(h)
  {
    file[..h.sizeOfHeaders] + seq(ImageSize(h) - h.sizeOfHeaders, i => 0)
  }

  /** The same with the base the image got in its headers. */
  function BaseStored(file: seq<byte>, nt: nat, h: Headers, codeBase: Address): (m: seq<byte>)
    requires Fits(file, nt, h)
    ensures |m| == ImageSize(h)
  {
    Set(HeadersCopied(file, h), nt + IMAGE_BASE, 8, codeBase)
  }

  /** Image and status after the sections the headers in the image list have been copied. */
  function SectionsMapped(file: seq<byte>, nt: nat, h: Headers, codeBase: Address): (r: (seq<byte>, CopyStatus))
    requires Fits(file, nt, h)
    ensures |r.0| == ImageSize(h)
  {
    var m := BaseStored(file, nt, h, codeBase);
    CopyTable(m, TableStart(m, nt), SectionCount(m, nt), 0, file, h.sectionAlignment, codeBase)
  }

  /** The base in the headers of the image minus the base in the headers of the file. */
  function LocationDelta(m: seq<byte>, nt: nat, h: Headers): Relocation.Delta
    requires nt + IMAGE_BASE + 8 <= |m|
  {
    (Qword(m, nt + IMAGE_BASE) - h.imageBase) % W64
  }

  function Relocated(m: seq<byte>, nt: nat, h: Headers): (r: (seq<byte>, Relocation.Outcome))
    requires nt + IMAGE_BASE + 8 <= |m|
    ensures |r.0| == |m|
  {
    var delta := LocationDelta(m, nt, h);
    if delta == 0 then (m, Relocation.Done(true))
    else if nt + BASERELOC_DIRECTORY + 8 > |m| then (m, Relocation.Crash)
    else Relocation.Relocate(m, DirectoryAt(m, nt + BASERELOC_DIRECTORY), delta)
  }

  function WithImports(m: seq<byte>, nt: nat, handles: seq<nat>, resolve: Resolver)
    : (r: (seq<byte>, ImportStatus, seq<Load>))
    ensures |r.0| == |m|
  {
    if nt + IMPORT_DIRECTORY + 8 > |m| then (m, OutOfImage, []) else
    var directory := DirectoryAt(m, nt + IMPORT_DIRECTORY);
    if directory.size == 0 then (m, Resolved, []) else ImportFrom(m, directory.virtualAddress, handles, resolve)
  }

  /** The image before finalizeSections, made of the file at codeBase with the given libraries. */
  ghost predicate ImageBuilt(image: seq<byte>, relocated: bool, file: seq<byte>, nt: nat, h: Headers,
      codeBase: Address, loads: seq<Load>, resolve: Resolver)
  {
    && Fits(file, nt, h) && |image| == ImageSize(h)
    && var (m1, copied) := SectionsMapped(file, nt, h, codeBase);
    && copied.Copied?
    && var (m2, outcome) := Relocated(m1, nt, h);
    && outcome == Relocation.Done(relocated)
    && (image, Resolved, loads) == WithImports(m2, nt, HandlesOf(loads), resolve)
  }

  /** finalizeSections makes image of before, with the given actions on its pages. */
  ghost predicate FinalizedFrom(before: seq<byte>, image: seq<byte>, nt: nat, actions: seq<PageAction>)
    requires nt + OPTIONAL_HEADER <= |before|
  {
    var t, n := TableStart(before, nt), SectionCount(before, nt);
    && n > 0 && HasSections(before, nt, t, n)
    && var ps := Passes(before, nt, t, n);
    && AllDivide(ps) && image == ps[|ps| - 1].memory && actions == PassActions(ps)
  }

  // ----- Why a load is refused

  /** The system has refused something since. */
  predicate Grown(before: seq<Refusal>, refusals: seq<Refusal>) { |refusals| > |before| }

  /** The system has refused nothing since, but for the preferred place. */
  predicate OnlyElsewhere(before: seq<Refusal>, refusals: seq<Refusal>, h: Headers) {
    refusals == before || refusals == before + [NoMemory(h.imageBase, ImageSize(h))]
  }

  /** The file is shorter than its headers, or than a section that the size guard looks at. */
  predicate CannotCopy(file: seq<byte>, nt: nat, h: Headers, codeBase: Address) {
    |file| < h.sizeOfHeaders || (Fits(file, nt, h) && SectionsMapped(file, nt, h, codeBase).1.Incomplete?)
  }

  /** So it is, or a fixup cannot be applied, or a symbol is not found, whatever handles the libraries get. */
  ghost predicate CannotBuild(file: seq<byte>, nt: nat, h: Headers, codeBase: Address, resolve: Resolver) {
    || CannotCopy(file, nt, h, codeBase)
    || (&& Fits(file, nt, h) && SectionsMapped(file, nt, h, codeBase).1.Copied?
        && var (m, outcome) := Relocated(SectionsMapped(file, nt, h, codeBase).0, nt, h);
        outcome.Error? || (outcome.Done? && exists handles :: WithImports(m, nt, handles, resolve).1 == NotFound))
  }

  /** The file fails a check, or cannot be built at some place. */
  ghost predicate CannotLoad(file: seq<byte>, machine: Machine, resolve: Resolver) {
    !HasPe(file, machine)
    || var nt := FindHeaders(file, machine).nt; CannotBuildSomewhere(file, nt, HeadersAt(file, nt), resolve)
  }

  ghost predicate CannotBuildSomewhere(file: seq<byte>, nt: nat, h: Headers, resolve: Resolver) {
    exists codeBase: Address :: CannotBuild(file, nt, h, codeBase, resolve)
  }

  // ----- When a load leaves its memory

  /** The field for the base lies outside the image, or a section lies outside the image or the file. */
  predicate StraysCopying(file: seq<byte>, nt: nat, h: Headers, codeBase: Address) {
    && h.sizeOfHeaders <= |file|
    && (nt + IMAGE_BASE + 8 > ImageSize(h)
        || (Fits(file, nt, h) && SectionsMapped(file, nt, h, codeBase).1 in {ReadsPastFile, Stray}))
  }

  /** finalizeSections finds no section header in the image, or divides by zero. */
  ghost predicate StraysFinishing(before: seq<byte>, nt: nat)
    requires nt + OPTIONAL_HEADER <= |before|
  {
    var t, n := TableStart(before, nt), SectionCount(before, nt);
    n == 0 || !HasSections(before, nt, t, n) || !AllDivide(Passes(before, nt, t, n))
  }

  /** Some step of building the image at codeBase leaves it, whatever handles the libraries get. */
  ghost predicate Strays(file: seq<byte>, nt: nat, h: Headers, codeBase: Address, resolve: Resolver) {
    || StraysCopying(file, nt, h, codeBase)
    || (&& Fits(file, nt, h) && SectionsMapped(file, nt, h, codeBase).1.Copied?
        && var (m, outcome) := Relocated(SectionsMapped(file, nt, h, codeBase).0, nt, h);
        || outcome.Crash?
        || (outcome.Done? && exists handles :: StraysImporting(m, nt, handles, resolve)))
  }

  ghost predicate StraysImporting(m: seq<byte>, nt: nat, handles: seq<nat>, resolve: Resolver) {
    var (m', status, _) := WithImports(m, nt, handles, resolve);
    status.OutOfImage? || (status.Resolved? && nt + OPTIONAL_HEADER <= |m| && StraysFinishing(m', nt))
  }

  lemma StraysThere(file: seq<byte>, nt: nat, h: Headers, codeBase: Address, m: seq<byte>, handles: seq<nat>,
      resolve: Resolver)
    requires Fits(file, nt, h) && SectionsMapped(file, nt, h, codeBase).1.Copied?
    requires Relocated(SectionsMapped(file, nt, h, codeBase).0, nt, h).1.Done?
    requires m == Relocated(SectionsMapped(file, nt, h, codeBase).0, nt, h).0
    requires StraysImporting(m, nt, handles, resolve)
    ensures Strays(file, nt, h, codeBase, resolve)
  {
    hide StraysImporting, SectionsMapped, Relocated, StraysCopying, Fits;
  }

  lemma StraysLater(image: seq<byte>, relocated: bool, file: seq<byte>, nt: nat, h: Headers, codeBase: Address,
      loads: seq<Load>, resolve: Resolver)
    requires ImageBuilt(image, relocated, file, nt, h, codeBase, loads, resolve) && nt + OPTIONAL_HEADER <= |image|
    ensures StraysFinishing(image, nt) ==> Strays(file, nt, h, codeBase, resolve)
  {
    hide SectionsMapped, Relocated, StraysCopying, StraysFinishing, WithImports, Strays, HandlesOf;
    var m := Relocated(SectionsMapped(file, nt, h, codeBase).0, nt, h).0;
    if StraysFinishing(image, nt) {
      StraysThere(file, nt, h, codeBase, m, HandlesOf(loads), resolve);
    }
  }

  ghost predicate StraysSomewhere(file: seq<byte>, nt: nat, h: Headers, resolve: Resolver) {
    exists codeBase: Address :: Strays(file, nt, h, codeBase, resolve)
  }

  /** The checks look outside the file, or building the image leaves it. */
  ghost predicate StraysLoading(file: seq<byte>, machine: Machine, resolve: Resolver) {
    match FindHeaders(file, machine)
    case NotPe => false
    case OutsideFile => true
    case PeAt(nt) =>
      ReadsPastHeaders(file, nt) || (HasHeaders(file, nt) && StraysSomewhere(file, nt, HeadersAt(file, nt), resolve))
  }

  class Module {
    var codeBase: nat
    var modules: Option<seq<nat>>
    var initialized: bool
    var isRelocated: bool
    var blockedMemory: AddressList
    /** The memory from codeBase upwards. */
    var image: array<byte>

    constructor ()
      ensures codeBase == 0 && modules == None && !initialized && blockedMemory == Nil && fresh(image)
    {
      codeBase, modules, initialized, isRelocated, blockedMemory := 0, None, false, false, Nil;
      image := new byte[0];
    }

    /** Bases of the reservations the module owns. */
    ghost function Bases(): set<nat>
      reads this`codeBase, this`blockedMemory
    {
      (if codeBase == 0 then {} else {codeBase}) + Blocks(blockedMemory)
    }

    ghost function Handles(): multiset<nat>
      reads this`modules
    {
      if modules.Some? then multiset(modules.value) else multiset{}
    }

    /** The reservations of the module are live, and none is listed twice. */
    ghost predicate HoldsMemory(os: OperatingSystem)
      reads this`codeBase, this`blockedMemory, os`reserved
    {
      && Bases() <= os.reserved.Keys
      && NoRepeats(blockedMemory) && codeBase !in Addresses(blockedMemory) && 0 !in Addresses(blockedMemory)
    }

    /** Everything the module owns is live, and it owns nothing twice; what has been attached lies in live memory. */
    ghost predicate Valid(os: OperatingSystem)
      reads this, os
    {
      HoldsMemory(os) && Handles() <= os.libraries && (initialized ==> codeBase in os.reserved)
    }

    ghost predicate OwnsNothing()
      reads this
    {
      Bases() == {} && Handles() == multiset{} && !initialized
    }

    /**
     Gives back the handles, the image and every blocked block, each exactly once: only live ones may be
     given back, and afterwards none is left. The entry point is told once if it had been told to attach.
    */
    method Free(os: OperatingSystem)
      requires Valid(os)
      modifies this, os`reserved, os`libraries, os`entryCalls, os`refusals
      ensures os.reserved == old(os.reserved) - old(Bases())
      ensures os.libraries == old(os.libraries) - old(Handles())
      ensures os.entryCalls == old(os.entryCalls) + if old(initialized) then [Detach(old(codeBase))] else []
      ensures Valid(os) && OwnsNothing()
      ensures !old(initialized) ==> os.refusals == old(os.refusals)
    {
      hide HoldsMemory, Bases, Handles, Blocks, NoRepeats, Addresses;
      if initialized {
        var _ := os.CallEntry(Detach(codeBase));
        initialized := false;
      }
      FreeModules(os);
      FreeMemory(os);
    }

    method FreeModules(os: OperatingSystem)
      requires Handles() <= os.libraries
      modifies this`modules, os`libraries
      ensures os.libraries == old(os.libraries) - old(Handles())
      ensures Handles() == multiset{}
    {
      if modules.Some? {
        FreeLibraries(modules.value, os);
        modules := None;
      }
    }

    method FreeMemory(os: OperatingSystem)
      requires HoldsMemory(os)
      modifies this`codeBase, this`blockedMemory, os`reserved
      ensures os.reserved == old(os.reserved) - old(Bases())
      ensures HoldsMemory(os) && Bases() == {}
    {
      if codeBase != 0 {
        os.Release(codeBase);
        codeBase := 0;
      }
      if blockedMemory != Nil {
        FreeList(blockedMemory, os);
        blockedMemory := Nil;
      }
    }

    /**
     Reserves again until the image crosses no 4 GiB boundary. The list holds exactly the rejected blocks,
     each once; they stay reserved, which is why the loop ends.
    */
    method Check4GBBoundaries(size: nat, os: OperatingSystem) returns (ok: bool)
      requires Consistent(os.reserved) && blockedMemory == Nil
      requires codeBase in os.reserved && os.reserved[codeBase] == size
      modifies this`codeBase, this`blockedMemory, os`reserved, os`refusals
      ensures os.refusals == if ok then old(os.refusals) else old(os.refusals) + [NoMemory(0, size)]
      ensures !CrossesBoundary(old(codeBase), size) ==> ok && blockedMemory == Nil
      ensures ok && blockedMemory == Nil ==> codeBase == old(codeBase)
      ensures Consistent(os.reserved)
      ensures ok ==> codeBase in os.reserved && os.reserved[codeBase] == size && !CrossesBoundary(codeBase, size)
      ensures !ok ==> codeBase == 0
      ensures codeBase !in Addresses(blockedMemory) && Rejected(blockedMemory, os.reserved, size)
      ensures Bases() <= os.reserved.Keys && os.reserved - Bases() == old(os.reserved - {codeBase})
    {
      hide CrossesBoundary, Consistent, Placeable, Retried, Rejected;
      FirstTry(os.reserved, codeBase, size);
      while CrossesBoundary(codeBase, size)
        invariant Consistent(os.reserved) && os.refusals == old(os.refusals)
        invariant !CrossesBoundary(old(codeBase), size) ==> blockedMemory == Nil
        invariant blockedMemory == Nil ==> codeBase == old(codeBase)
        invariant Retried(os.reserved, codeBase, blockedMemory, size, old(os.reserved - {codeBase}))
        decreases BOUNDARIES - |Addresses(blockedMemory)|
      {
        ghost var before, base := os.reserved, codeBase;
        Retry(os.reserved, codeBase, blockedMemory, size, old(os.reserved - {codeBase}), codeBase);
        blockedMemory := Node(codeBase, blockedMemory);
        RejectedAreFew(blockedMemory, os.reserved, size);
        codeBase := os.VirtualAlloc(0, size);
        if codeBase == 0 {
          NotListed(blockedMemory, os.reserved, size);
          return false;
        }
        Retry(before, base, blockedMemory.next, size, old(os.reserved - {codeBase}), codeBase);
      }
      FromRetried(os.reserved, codeBase, blockedMemory, size, old(os.reserved - {codeBase}));
      return true;
    }

    /** Reserves memory for the image, at the preferred base if possible. */
    method Reserve(h: Headers, os: OperatingSystem) returns (ok: bool)
      requires Consistent(os.reserved) && codeBase == 0 && blockedMemory == Nil
      modifies this`codeBase, this`blockedMemory, os`reserved, os`refusals
      ensures ok ==> OnlyElsewhere(old(os.refusals), os.refusals, h)
      ensures !ok ==> Grown(old(os.refusals), os.refusals)
      ensures !ok ==> os.refusals[|os.refusals| - 1] == NoMemory(0, ImageSize(h))
      ensures ok && os.refusals == old(os.refusals) && h.imageBase != 0 && blockedMemory == Nil ==>
        codeBase == h.imageBase - h.imageBase % GRANULARITY
      ensures Consistent(os.reserved) && HoldsMemory(os)
      ensures os.reserved - Bases() == old(os.reserved)
      ensures Rejected(blockedMemory, os.reserved, ImageSize(h))
      ensures ok ==> codeBase in os.reserved && os.reserved[codeBase] == ImageSize(h)
      ensures ok ==> !CrossesBoundary(codeBase, ImageSize(h))
      ensures !ok ==> codeBase == 0
    {
      var size := ImageSize(h);
      codeBase := os.VirtualAlloc(h.imageBase, size);
      if codeBase == 0 {
        codeBase := os.VirtualAlloc(0, size);
        if codeBase == 0 {
          return false;
        }
      }
      assert os.reserved - {codeBase} == old(os.reserved);
      ok := Check4GBBoundaries(size, os);
    }

    /** Copies headers and sections into new memory. */
    method MapSections(file: seq<byte>, nt: nat, h: Headers, os: OperatingSystem) returns (r: LoadResult)
      requires Consistent(os.reserved) && codeBase in os.reserved && os.reserved[codeBase] == ImageSize(h)
      modifies this`image, os`refusals
      ensures r.Loaded? ==> os.refusals == old(os.refusals)
      ensures r.Refused? ==>
        Grown(old(os.refusals), os.refusals) || (codeBase < W64 && CannotCopy(file, nt, h, codeBase))
      ensures fresh(image) && codeBase < W64
      ensures r.Panicked? ==> StraysCopying(file, nt, h, codeBase)
      ensures r.Loaded? ==> Fits(file, nt, h) && (image[..], Copied) == SectionsMapped(file, nt, h, codeBase)
    {
      hide AlignUp, HeadersCopied, CopyTable, Set, U16;
      image := new byte[0];
      if |file| < h.sizeOfHeaders {
        return Refused;
      }
      var ok := os.Commit(codeBase, h.sizeOfHeaders);
      if !ok {
        return Refused;
      }
      InsideReservation(os.reserved, codeBase, h.sizeOfHeaders);
      image := NewImage(file, h);
      if nt + IMAGE_BASE + 8 > image.Length {
        return Panicked;
      }
      Put(image, nt + IMAGE_BASE, 8, codeBase);
      var copied;
      ghost var done;
      copied, done := CopySections(image, nt, file, h.sectionAlignment, codeBase, os);
      r := match copied
        case Copied => Loaded
        case Incomplete => Refused
        case AllocationFailed => Refused
        case ReadsPastFile => Panicked
        case Stray => Panicked;
    }

    /** Relocates the image unless its headers give the preferred base. */
    method Relocate(nt: nat, h: Headers) returns (r: LoadResult)
      requires nt + IMAGE_BASE + 8 <= image.Length
      modifies image, this`isRelocated
      ensures var (m, outcome) := Relocated(old(image[..]), nt, h);
        && image[..] == m
        && match outcome
           case Done(relocated) => r == Loaded && isRelocated == relocated
           case Error(_) => r == Refused
           case Crash => r == Panicked
    {
      hide LocationDelta, DirectoryAt;
      var delta := LocationDelta(image[..], nt, h);
      if delta == 0 {
        isRelocated := true;
        return Loaded;
      }
      if nt + BASERELOC_DIRECTORY + 8 > image.Length {
        return Panicked;
      }
      var directory := DirectoryAt(image[..], nt + BASERELOC_DIRECTORY);
      var outcome := Relocation.PerformBaseRelocation(image, directory, delta);
      match outcome {
        case Crash => r := Panicked;
        case Error(_) => r := Refused;
        case Done(relocated) => isRelocated, r := relocated, Loaded;
      }
    }

    /** Loads the libraries the headers in the image ask for. */
    method Import(nt: nat, os: OperatingSystem) returns (r: LoadResult, ghost loads: seq<Load>)
      requires modules == None
      modifies image, this`modules, os`libraries, os`loads, os`refusals
      ensures r.Loaded? ==> os.refusals == old(os.refusals)
      ensures r.Refused? ==>
        || Grown(old(os.refusals), os.refusals)
        || WithImports(old(image[..]), nt, HandlesOf(loads), os.resolve).1 == NotFound
      ensures r.Panicked? ==> WithImports(old(image[..]), nt, HandlesOf(loads), os.resolve).1 == OutOfImage
      ensures !r.Panicked? ==> os.libraries == old(os.libraries) + Handles()
      ensures r.Loaded? ==> os.loads == old(os.loads) + loads && Recorded(loads)
      ensures r.Loaded? ==>
        (image[..], Resolved, loads) == WithImports(old(image[..]), nt, HandlesOf(loads), os.resolve)
    {
      hide DirectoryAt, HandlesOf, ImportFrom;
      loads := [];
      if nt + IMPORT_DIRECTORY + 8 > image.Length {
        return Panicked, loads;
      }
      var directory := DirectoryAt(image[..], nt + IMPORT_DIRECTORY);
      var status;
      status, modules, loads := BuildImportTable(image, directory, os);
      r := if status.Resolved? then Loaded else if status.OutOfImage? then Panicked else Refused;
    }

    /** The module has the handles of the loads, or there was nothing to load. */
    ghost predicate Recorded(loads: seq<Load>)
      reads this`modules
    {
      modules == Some(HandlesOf(loads)) || (modules == None && loads == [])
    }

    /** Builds the image: headers, sections, relocation, imports. */
    method Fill(file: seq<byte>, nt: nat, h: Headers, os: OperatingSystem)
      returns (r: LoadResult, ghost loads: seq<Load>)
      requires modules == None
      requires Consistent(os.reserved) && codeBase in os.reserved && os.reserved[codeBase] == ImageSize(h)
      modifies this`image, this`modules, this`isRelocated, os`libraries, os`loads, os`refusals
      ensures r.Loaded? ==> os.refusals == old(os.refusals)
      ensures r.Refused? ==>
        Grown(old(os.refusals), os.refusals) || (codeBase < W64 && CannotBuild(file, nt, h, codeBase, os.resolve))
      ensures fresh(image) && codeBase < W64
      ensures r.Panicked? ==> Strays(file, nt, h, codeBase, os.resolve)
      ensures !r.Panicked? ==> os.libraries == old(os.libraries) + Handles()
      ensures r.Loaded? ==> os.loads == old(os.loads) + loads && Recorded(loads)
      ensures r.Loaded? ==> ImageBuilt(image[..], isRelocated, file, nt, h, codeBase, loads, os.resolve)
    {
      hide SectionsMapped, Relocated, WithImports, ImageSize, Recorded;
      loads := [];
      r := MapSections(file, nt, h, os);
      if !r.Loaded? {
        return;
      }
      r := Relocate(nt, h);
      if !r.Loaded? {
        return;
      }
      ghost var m := image[..];
      r, loads := Import(nt, os);
      if r.Panicked? {
        StraysThere(file, nt, h, codeBase, m, HandlesOf(loads), os.resolve);
      }
    }

    /** Protects the pages, and tells the entry point of a library. */
    method Finish(nt: nat, isDll: bool, os: OperatingSystem) returns (r: LoadResult, ghost actions: seq<PageAction>)
      requires nt + OPTIONAL_HEADER <= image.Length && !initialized && codeBase in os.reserved
      modifies this`initialized, image, os`actions, os`entryCalls, os`refusals
      ensures r.Loaded? ==> os.refusals == old(os.refusals)
      ensures r.Refused? ==> Grown(old(os.refusals), os.refusals)
      ensures r.Refused? ==> !initialized
      ensures r.Panicked? ==> StraysFinishing(old(image[..]), nt)
      ensures r.Loaded? ==> FinalizedFrom(old(image[..]), image[..], nt, actions)
      ensures r.Loaded? ==> os.actions == old(os.actions) + actions
      ensures r.Loaded? ==> nt + ADDRESS_OF_ENTRY_POINT + 4 <= image.Length
      ensures r.Loaded? ==> initialized == (isDll && Dword(image[..], nt + ADDRESS_OF_ENTRY_POINT) != 0)
      ensures r.Loaded? ==> os.entryCalls == old(os.entryCalls) + if initialized then [Attach(codeBase)] else []
    {
      hide Passes, PassActions, Dword, U16, DividesByZero;
      actions := [];
      var t, n := TableStart(image[..], nt), SectionCount(image[..], nt);
      if n == 0 || !HasSections(image[..], nt, t, n) {
        return Panicked, actions;
      }
      var finalized;
      ghost var done;
      finalized, done := FinalizeSections(image, nt, t, n, os);
      if !finalized.Finalized? {
        r := if finalized.DivisionByZero? then Panicked else Refused;
        return;
      }
      AllPasses(Passes(old(image[..]), nt, t, n), done);
      actions := PassActions(Passes(old(image[..]), nt, t, n));
      var hooked := os.Hook();
      if !hooked {
        return Refused, actions;
      }
      if Dword(image[..], nt + ADDRESS_OF_ENTRY_POINT) != 0 && isDll {
        var ok := os.CallEntry(Attach(codeBase));
        if !ok {
          return Refused, actions;
        }
        initialized := true;
      }
      r := Loaded;
    }

    /** What the module owns is exactly what was taken since the system held reserved and libraries. */
    ghost predicate Took(os: OperatingSystem, size: nat, reserved: map<nat, nat>, libraries: multiset<nat>)
      reads this, os
    {
      && Valid(os) && Consistent(os.reserved)
      && os.reserved - Bases() == reserved && os.libraries == libraries + Handles()
      && Rejected(blockedMemory, os.reserved, size)
    }

    /** The contents of the image: built from the file and the loaded libraries, then finalized. */
    ghost predicate BuiltFrom(before: seq<byte>, file: seq<byte>, nt: nat, h: Headers, os: OperatingSystem,
        loads: seq<Load>, actions: seq<PageAction>)
      reads this, image, os
    {
      && codeBase < W64
      && ImageBuilt(before, isRelocated, file, nt, h, codeBase, loads, os.resolve)
      && FinalizedFrom(before, image[..], nt, actions)
      && Recorded(loads)
      && nt + ADDRESS_OF_ENTRY_POINT + 4 <= image.Length
      && initialized == (h.isDll && Dword(image[..], nt + ADDRESS_OF_ENTRY_POINT) != 0)
    }

    /** The image lies in a reservation of its own inside one 4 GiB block. */
    ghost predicate IsMapped(os: OperatingSystem, size: nat)
      reads this, os
    {
      && codeBase in os.reserved && os.reserved[codeBase] == size
      && codeBase + size <= USER_LIMIT && codeBase % GRANULARITY == 0
      && !CrossesBoundary(codeBase, size)
    }

    /** Builds the image in the reservation and puts it to use. */
    method Complete(file: seq<byte>, nt: nat, h: Headers, os: OperatingSystem)
      returns (r: LoadResult, ghost loads: seq<Load>, ghost actions: seq<PageAction>, ghost before: seq<byte>)
      requires modules == None && !initialized
      requires Consistent(os.reserved) && codeBase in os.reserved && os.reserved[codeBase] == ImageSize(h)
      modifies this`image, this`modules, this`isRelocated, this`initialized
      modifies os`libraries, os`loads, os`actions, os`entryCalls, os`refusals
      ensures r.Loaded? ==> os.refusals == old(os.refusals)
      ensures r.Refused? ==>
        Grown(old(os.refusals), os.refusals) || (codeBase < W64 && CannotBuild(file, nt, h, codeBase, os.resolve))
      ensures r.Panicked? ==> codeBase < W64 && Strays(file, nt, h, codeBase, os.resolve)
      ensures !r.Panicked? ==> os.libraries == old(os.libraries) + Handles()
      ensures r.Refused? ==> !initialized
      ensures r.Loaded? ==> BuiltFrom(before, file, nt, h, os, loads, actions)
      ensures r.Loaded? ==> os.actions == old(os.actions) + actions && os.loads == old(os.loads) + loads
      ensures r.Loaded? ==> os.entryCalls == old(os.entryCalls) + if initialized then [Attach(codeBase)] else []
    {
      hide FinalizedFrom, SectionsMapped, Relocated, WithImports, ImageSize, Recorded, Consistent, Dword, Strays,
        StraysFinishing, CannotBuild, HandlesOf;
      actions := [];
      r, loads := Fill(file, nt, h, os);
      before := image[..];
      if r.Loaded? {
        StraysLater(before, isRelocated, file, nt, h, codeBase, loads, os.resolve);
        r, actions := Finish(nt, h.isDll, os);
      }
    }

    /** The steps of loading after the layout check. */
    method Build(file: seq<byte>, nt: nat, h: Headers, os: OperatingSystem)
      returns (r: LoadResult, ghost loads: seq<Load>, ghost actions: seq<PageAction>, ghost before: seq<byte>)
      requires Consistent(os.reserved)
      requires codeBase == 0 && blockedMemory == Nil && modules == None && !initialized
      modifies this, os
      ensures r.Loaded? ==> OnlyElsewhere(old(os.refusals), os.refusals, h)
      ensures r.Refused? ==>
        Grown(old(os.refusals), os.refusals) || CannotBuildSomewhere(file, nt, h, os.resolve)
      ensures r.Panicked? ==> StraysSomewhere(file, nt, h, os.resolve)
      ensures !r.Panicked? ==> Took(os, ImageSize(h), old(os.reserved), old(os.libraries))
      ensures r.Refused? ==> !initialized
      ensures r.Loaded? ==> IsMapped(os, ImageSize(h)) && BuiltFrom(before, file, nt, h, os, loads, actions)
      ensures r.Loaded? ==> os.actions == old(os.actions) + actions && os.loads == old(os.loads) + loads
      ensures r.Loaded? ==> os.entryCalls == old(os.entryCalls) + if initialized then [Attach(codeBase)] else []
    {
      hide BuiltFrom, CrossesBoundary, ImageSize, Rejected, CannotBuild, Strays;
      loads, actions, before := [], [], [];
      var ok := Reserve(h, os);
      if ok {
        r, loads, actions, before := Complete(file, nt, h, os);
      } else {
        r := Refused;
      }
    }
  }

  lemma AllPasses(ps: seq<Pass>, done: nat)
    requires done == |ps| && AllDivide(ps[..done])
    ensures AllDivide(ps) && ps[..done] == ps
  {
    assert ps[..done] == ps;
  }

  method NewImage(file: seq<byte>, h: Headers) returns (image: array<byte>)
    requires h.sizeOfHeaders <= |file| && h.sizeOfHeaders <= ImageSize(h)
    ensures fresh(image) && image[..] == HeadersCopied(file, h)
  {
    image := new byte[ImageSize(h)](i => 0);
    forall i | 0 <= i < h.sizeOfHeaders {
      image[i] := file[i];
    }
  }

  lemma InsideReservation(reserved: map<nat, nat>, base: nat, n: nat)
    requires Consistent(reserved) && base in reserved
    requires exists b | b in reserved :: b <= base && base + n <= b + reserved[b]
    ensures n <= reserved[base]
  {
    var b :| b in reserved && b <= base && base + n <= b + reserved[b];
    if b != base {
      assert !Overlap(b, reserved[b], base, reserved[base]);
    }
  }

  /**
   Loads a module. When this fails, every reservation and every library handle taken on the way has been given
   back; when it succeeds, the module owns exactly what was taken, and before is its image when finalizeSections
   starts.
  */
  method LoadLibrary(file: seq<byte>, machine: Machine, os: OperatingSystem)
    returns (r: LoadResult, module_: Module, ghost loads: seq<Load>, ghost actions: seq<PageAction>,
      ghost before: seq<byte>)
    requires Consistent(os.reserved)
    modifies os
    ensures fresh(module_)
    ensures r.Refused? ==> Grown(old(os.refusals), os.refusals) || CannotLoad(file, machine, os.resolve)
    ensures r.Panicked? ==> StraysLoading(file, machine, os.resolve)
    ensures r.Refused? ==> os.reserved == old(os.reserved) && os.libraries == old(os.libraries) && module_.OwnsNothing()
    ensures r.Loaded? ==> HasPe(file, machine)
    ensures r.Loaded? ==> var nt := FindHeaders(file, machine).nt; var h := HeadersAt(file, nt);
      && module_.Took(os, ImageSize(h), old(os.reserved), old(os.libraries))
      && module_.IsMapped(os, ImageSize(h))
      && module_.BuiltFrom(before, file, nt, h, os, loads, actions)
      && OnlyElsewhere(old(os.refusals), os.refusals, h)
    ensures r.Loaded? ==> os.actions == old(os.actions) + actions && os.loads == old(os.loads) + loads
    ensures r.Loaded? ==>
      os.entryCalls == old(os.entryCalls) + if module_.initialized then [Attach(module_.codeBase)] else []
  {
    hide LayoutOk, ImageSize, Module.BuiltFrom, Module.IsMapped, FindHeaders, HeadersAt, U16, AlignUp,
      CannotBuildSomewhere, OnlyElsewhere, Grown, CannotLoad;
    loads, actions, before := [], [], [];
    module_ := new Module();
    var ok, nt := CheckedHeaders(file, machine);
    if !ok.Loaded? {
      FailsChecks(file, machine, os.resolve);
      return ok, module_, loads, actions, before;
    }
    r, loads, actions, before := module_.Build(file, nt, HeadersAt(file, nt), os);
    if r.Refused? {
      PassesChecksOnly(file, machine, os.resolve);
      module_.Free(os);
    }
  }

  lemma FailsChecks(file: seq<byte>, machine: Machine, resolve: Resolver)
    ensures !HasPe(file, machine) ==> CannotLoad(file, machine, resolve)
  {
    hide HasPe;
  }

  lemma PassesChecksOnly(file: seq<byte>, machine: Machine, resolve: Resolver)
    requires HasPe(file, machine)
    ensures var nt := FindHeaders(file, machine).nt;
      CannotBuildSomewhere(file, nt, HeadersAt(file, nt), resolve) ==> CannotLoad(file, machine, resolve)
  {
    hide LayoutOk, HeadersAt, FindHeaders, CannotBuildSomewhere, HasHeaders;
  }

  /** The checks read section headers outside the file. */
  predicate ReadsPastHeaders(file: seq<byte>, nt: nat)
    requires nt + NT_HEADERS <= |file|
  {
    HeadersEnd(file, nt) > |file| && SectionCount(file, nt) > 0 && Dword(file, nt + SECTION_ALIGNMENT) % 2 == 0
  }

  /**
   The checks before the module is created: signatures, machine, and layout. A file without sections is refused
   even if the place of its section headers lies outside, as it has no image that could be reserved.
  */
  method CheckedHeaders(file: seq<byte>, machine: Machine) returns (r: LoadResult, nt: nat)
    ensures r.Loaded? <==> HasPe(file, machine)
    ensures r.Loaded? ==> nt == FindHeaders(file, machine).nt
    ensures var search := FindHeaders(file, machine);
      r.Panicked? <==> search.OutsideFile? || (search.PeAt? && ReadsPastHeaders(file, search.nt))
  {
    hide LayoutOk, FindHeaders, U16, AlignUp, Dword;
    nt := 0;
    match FindHeaders(file, machine) {
      case NotPe => return Refused, nt;
      case OutsideFile => return Panicked, nt;
      case PeAt(found) => nt := found;
    }
    var alignment := Dword(file, nt + SECTION_ALIGNMENT);
    if HeadersEnd(file, nt) > |file| {
      r := if alignment % 2 != 0 || SectionCount(file, nt) == 0 then Refused else Panicked;
      return;
    }
    var sizeOfImage := Dword(file, nt + SIZE_OF_IMAGE);
    var ok, size := CheckLayout(file, TableStart(file, nt), SectionCount(file, nt), sizeOfImage, alignment);
    r := if ok then Loaded else Refused;
  }

  /** Freeing again gives nothing back a second time. */
  method FreeTwice(m: Module, os: OperatingSystem)
    requires m.Valid(os)
    modifies m, os`reserved, os`libraries, os`entryCalls, os`refusals
    ensures os.reserved == old(os.reserved) - old(m.Bases())
    ensures os.libraries == old(os.libraries) - old(m.Handles())
    ensures os.entryCalls == old(os.entryCalls) + if old(m.initialized) then [Detach(old(m.codeBase))] else []
  {
    hide NoRepeats, Addresses, Module.Bases, Module.Handles;
    m.Free(os);
    m.Free(os);
  }

  /** Loading and freeing leave the system as it was. */
  method LoadThenFree(file: seq<byte>, machine: Machine, os: OperatingSystem) returns (r: LoadResult)
    requires Consistent(os.reserved)
    modifies os
    ensures !r.Panicked? ==> os.reserved == old(os.reserved) && os.libraries == old(os.libraries)
  {
    hide LayoutOk, ImageSize, Module.BuiltFrom, Module.IsMapped, Rejected, NoRepeats, Addresses, Module.Bases,
      Module.Handles, FindHeaders, HeadersAt, HasHeaders;
    var m;
    ghost var loads, actions, before;
    r, m, loads, actions, before := LoadLibrary(file, machine, os);
    if r.Loaded? {
      FreeTwice(m, os);
    }
  }

  method FreeLibraries(handles: seq<nat>, os: OperatingSystem)
    requires multiset(handles) <= os.libraries
    modifies os`libraries
    ensures os.libraries == old(os.libraries) - multiset(handles)
  {
    for i := 0 to |handles|
      invariant multiset(handles[i..]) <= os.libraries
      invariant os.libraries - multiset(handles[i..]) == old(os.libraries) - multiset(handles)
    {
      FirstHandle(handles[i..], os.libraries);
      assert handles[i..][1..] == handles[i + 1..];
      os.FreeLibrary(handles[i]);
    }
  }

  lemma FirstTry(reserved: map<nat, nat>, base: nat, size: nat)
    requires base in reserved && reserved[base] == size
    ensures Retried(reserved, base, Nil, size, reserved - {base})
  {
  }

  lemma FromRetried(reserved: map<nat, nat>, base: nat, list: AddressList, size: nat, rest: map<nat, nat>)
    requires Consistent(reserved) && Retried(reserved, base, list, size, rest)
    ensures base != 0 && base in reserved && reserved[base] == size && base !in Addresses(list)
    ensures Rejected(list, reserved, size) && reserved - ({base} + Blocks(list)) == rest
    ensures {base} + Blocks(list) <= reserved.Keys
  {
  }

  lemma NotListed(list: AddressList, reserved: map<nat, nat>, size: nat)
    requires Consistent(reserved) && Rejected(list, reserved, size)
    ensures 0 !in Addresses(list) && Blocks(list) <= reserved.Keys
  {
  }

  lemma FirstHandle(handles: seq<nat>, libraries: multiset<nat>)
    requires handles != [] && multiset(handles) <= libraries
    ensures handles[0] in libraries && multiset(handles[1..]) <= libraries - multiset{handles[0]}
    ensures libraries - multiset{handles[0]} - multiset(handles[1..]) == libraries - multiset(handles)
  {
    var rest := multiset(handles[1..]);
    assert handles == [handles[0]] + handles[1..];
    assert multiset(handles) == multiset{handles[0]} + rest;
  }

  method FreeList(head: AddressList, os: OperatingSystem)
    requires NoRepeats(head) && forall b | b in Addresses(head) :: b in os.reserved
    modifies os`reserved
    ensures os.reserved == old(os.reserved) - Blocks(head)
  {
    var node := head;
    while node != Nil
      invariant NoRepeats(node) && forall b | b in Addresses(node) :: b in os.reserved
      invariant os.reserved - Blocks(node) == old(os.reserved) - Blocks(head)
      decreases node
    {
      os.Release(node.address);
      node := node.next;
    }
  }
}
