/** buildImportTable: loading the imported libraries and filling the import address tables in place. */
module Imports {
  import opened Bytes
  import opened Wrappers
  import opened Os
  import opened Relocation

  const ORDINAL_FLAG: nat := 0x8000_0000_0000_0000
  const DESCRIPTOR_SIZE: nat := 20

  type Resolver = (nat, Symbol) -> Option<Address>

  /** OutOfImage stands for an access outside the image. */
  datatype ImportStatus = Resolved | NotLoaded | NotFound | OutOfImage

  /** The NUL-terminated string at offset p. */
  function CString(m: seq<byte>, p: nat): Option<seq<byte>>
    decreases |m| - p
  {
    if p >= |m| then None
    else if m[p] == 0 then Some([])
    else match CString(m, p + 1)
      case None => None
      case Some(s) => Some([m[p]] + s)
  }

  predicate ByItsOrdinal(thunk: nat) { thunk / ORDINAL_FLAG % 2 == 1 }

  /** What a thunk asks for: an ordinal, or the name behind a two-byte hint. */
  function SymbolOf(m: seq<byte>, thunk: nat): Option<Symbol> {
    if ByItsOrdinal(thunk) then Some(ByOrdinal(thunk % 0x1_0000))
    else match CString(m, thunk + 2)
      case None => None
      case Some(s) => Some(ByName(s))
  }

  /** Memory and status after the thunks from offset t have been resolved into the slots from offset f. */
  function ResolveThunks(m: seq<byte>, t: nat, f: nat, handle: nat, resolve: Resolver): (r: (seq<byte>, ImportStatus))
    ensures |r.0| == |m| && !r.1.NotLoaded?
    decreases |m| - t
  {
    if t + 8 > |m| then (m, OutOfImage)
    else
      var thunk := U64(m, t);
      if thunk == 0 then (m, Resolved)
      else if SymbolOf(m, thunk).None? || f + 8 > |m| then (m, OutOfImage)
      else match resolve(handle, SymbolOf(m, thunk).value)
        case None => (Set(m, f, 8, 0), NotFound)
        case Some(address) => ResolveThunks(Set(m, f, 8, address), t + 8, f + 8, handle, resolve)
  }

  /** First thunk to read: the lookup table, or the address table when there is no hint table. */
  function LookupOf(m: seq<byte>, pos: nat): nat
    requires pos + DESCRIPTOR_SIZE <= |m|
  {
    if U32(m, pos) != 0 then U32(m, pos) else U32(m, pos + 16)
  }

  /**
   Memory and status after the descriptors from offset pos, and the calls made that load a library, when
   these calls return the given handles in turn.
  */
  function ImportFrom(m: seq<byte>, pos: nat, handles: seq<nat>, resolve: Resolver)
    : (r: (seq<byte>, ImportStatus, seq<Load>))
    ensures |r.0| == |m|
    decreases |handles|
  {
    if pos + 16 > |m| then (m, OutOfImage, [])
    else if U32(m, pos + 12) == 0 then (m, Resolved, [])
    else match CString(m, U32(m, pos + 12))
      case None => (m, OutOfImage, [])
      case Some(name) =>
        if handles == [] then (m, NotLoaded, []) else
        var load := [Load(name, handles[0])];
        if handles[0] == 0 then (m, NotLoaded, load)
        else if pos + DESCRIPTOR_SIZE > |m| then (m, OutOfImage, load)
        else
          var (m1, status) := ResolveThunks(m, LookupOf(m, pos), U32(m, pos + 16), handles[0], resolve);
          if !status.Resolved? then (m1, status, load) else
          var (m2, status2, loads) := ImportFrom(m1, pos + DESCRIPTOR_SIZE, handles[1..], resolve);
          (m2, status2, load + loads)
  }

  method ResolveInPlace(image: array<byte>, t0: nat, f0: nat, handle: nat, os: OperatingSystem)
    returns (status: ImportStatus)
    modifies image
    ensures (image[..], status) == ResolveThunks(old(image[..]), t0, f0, handle, os.resolve)
  {
    hide U64, SymbolOf, Set;
    var t: nat, f: nat := t0, f0;
    while true
      invariant ResolveThunks(old(image[..]), t0, f0, handle, os.resolve)
        == ResolveThunks(image[..], t, f, handle, os.resolve)
      decreases image.Length - t
    {
      if t + 8 > image.Length { return OutOfImage; }
      var thunk := U64(image[..], t);
      if thunk == 0 { return Resolved; }
      var symbol := SymbolOf(image[..], thunk);
      if symbol.None? || f + 8 > image.Length { return OutOfImage; }
      match os.resolve(handle, symbol.value) {
        case None =>
          Put(image, f, 8, 0);
          return NotFound;
        case Some(address) =>
          Put(image, f, 8, address);
      }
      t, f := t + 8, f + 8;
    }
  }

  function HandlesOf(loads: seq<Load>): (handles: seq<nat>)
    ensures |handles| == |loads|
  {
    seq(|loads|, i requires 0 <= i < |loads| => loads[i].handle)
  }

  /**
   What remains to be done from offset pos, whatever handles later calls return, completes what the loads so
   far have done.
  */
  ghost predicate Continues(m0: seq<byte>, pos0: nat, loads: seq<Load>, m: seq<byte>, pos: nat, resolve: Resolver) {
    forall later: seq<nat> ::
      var (m', status, rest) := ImportFrom(m, pos, later, resolve);
      ImportFrom(m0, pos0, HandlesOf(loads) + later, resolve) == (m', status, loads + rest)
  }

  /**
   Loads one library and resolves its thunks; a library whose thunk cannot be resolved is freed at once.
  */
  method ImportLibrary(image: array<byte>, pos: nat, name: seq<byte>, os: OperatingSystem)
    returns (handle: nat, status: ImportStatus)
    modifies image, os`libraries, os`loads, os`refusals
    ensures os.loads == old(os.loads) + [Load(name, handle)]
    ensures os.refusals == if handle == 0 then old(os.refusals) + [NoLibrary(name)] else old(os.refusals)
    ensures handle == 0 ==> status == NotLoaded && image[..] == old(image[..])
    ensures handle != 0 && pos + DESCRIPTOR_SIZE > image.Length ==> status == OutOfImage && image[..] == old(image[..])
    ensures handle != 0 && pos + DESCRIPTOR_SIZE <= image.Length ==>
      (image[..], status) == ResolveThunks(old(image[..]), LookupOf(old(image[..]), pos), U32(old(image[..]), pos + 16),
        handle, os.resolve)
    ensures !status.OutOfImage? ==>
      os.libraries == if status.Resolved? then old(os.libraries) + multiset{handle} else old(os.libraries)
  {
    hide U32, ResolveThunks, LookupOf;
    handle := os.LoadLibraryEx(name);
    if handle == 0 { return handle, NotLoaded; }
    if pos + DESCRIPTOR_SIZE > image.Length { return handle, OutOfImage; }
    status := ResolveInPlace(image, LookupOf(image[..], pos), U32(image[..], pos + 16), handle, os);
    if status.NotFound? {
      os.FreeLibrary(handle);
    }
  }

  /** Imports the libraries in order; a handle is recorded only after all its thunks are resolved. */
  method BuildImportTable(image: array<byte>, directory: Directory, os: OperatingSystem)
    returns (status: ImportStatus, modules: Option<seq<nat>>, ghost loads: seq<Load>)
    modifies image, os`libraries, os`loads, os`refusals
    ensures if status.NotLoaded? then |os.refusals| > |old(os.refusals)| else os.refusals == old(os.refusals)
    ensures os.loads == old(os.loads) + loads
    ensures directory.size == 0 ==> status == Resolved && modules == None && loads == [] && image[..] == old(image[..])
    ensures directory.size != 0 ==>
      (image[..], status, loads) == ImportFrom(old(image[..]), directory.virtualAddress, HandlesOf(loads), os.resolve)
    ensures directory.size != 0 ==> modules.Some? && 0 !in modules.value && modules.value <= HandlesOf(loads)
    ensures directory.size != 0 && status.Resolved? ==> modules.value == HandlesOf(loads)
    ensures !status.OutOfImage? ==>
      os.libraries == old(os.libraries) + multiset(if modules.Some? then modules.value else [])
  {
    hide CString, U32, ResolveThunks, LookupOf, Continues, ImportFrom, HandlesOf;
    if directory.size == 0 {
      return Resolved, None, [];
    }
    var recorded: seq<nat> := [];
    loads := [];
    HandlesOfNone();
    var pos: nat := directory.virtualAddress;
    ContinuesFirst(image[..], pos, os.resolve);
    while true
      invariant recorded == HandlesOf(loads) && 0 !in recorded
      invariant Continues(old(image[..]), directory.virtualAddress, loads, image[..], pos, os.resolve)
      invariant os.libraries == old(os.libraries) + multiset(recorded)
      invariant os.loads == old(os.loads) + loads && os.refusals == old(os.refusals)
      decreases image.Length - pos
    {
      modules := Some(recorded);
      ContinuesLast(old(image[..]), directory.virtualAddress, loads, image[..], pos, os.resolve);
      if pos + 16 > image.Length { return OutOfImage, modules, loads; }
      var name := U32(image[..], pos + 12);
      if name == 0 { return Resolved, modules, loads; }
      var library := CString(image[..], name);
      if library.None? { return OutOfImage, modules, loads; }
      var handle;
      label before:
      handle, status := ImportLibrary(image, pos, library.value, os);
      ContinuesStep(old(image[..]), directory.virtualAddress, loads, old@before(image[..]), pos, os.resolve, handle);
      HandlesAppend(loads, library.value, handle);
      loads := loads + [Load(library.value, handle)];
      if !status.Resolved? {
        return status, modules, loads;
      }
      recorded := recorded + [handle];
      pos := pos + DESCRIPTOR_SIZE;
    }
  }

  lemma HandlesOfNone()
    ensures HandlesOf([]) == []
  {
  }

  lemma HandlesAppend(loads: seq<Load>, name: seq<byte>, handle: nat)
    ensures HandlesOf(loads + [Load(name, handle)]) == HandlesOf(loads) + [handle]
  {
  }

  lemma ContinuesFirst(m: seq<byte>, pos: nat, resolve: Resolver)
    ensures Continues(m, pos, [], m, pos, resolve)
  {
    hide ImportFrom;
    forall later: seq<nat>
      ensures ImportFrom(m, pos, HandlesOf([]) + later, resolve).2 == [] + ImportFrom(m, pos, later, resolve).2
      ensures HandlesOf([]) + later == later
    {
      assert HandlesOf([]) + later == later;
    }
  }

  /** What is reached when no further library is loaded. */
  lemma ContinuesLast(m0: seq<byte>, pos0: nat, loads: seq<Load>, m: seq<byte>, pos: nat, resolve: Resolver)
    requires Continues(m0, pos0, loads, m, pos, resolve)
    ensures var (m', status, rest) := ImportFrom(m, pos, [], resolve);
      ImportFrom(m0, pos0, HandlesOf(loads), resolve) == (m', status, loads)
    ensures pos + 16 > |m| ==> ImportFrom(m0, pos0, HandlesOf(loads), resolve) == (m, OutOfImage, loads)
    ensures pos + 16 <= |m| && U32(m, pos + 12) == 0 ==>
      ImportFrom(m0, pos0, HandlesOf(loads), resolve) == (m, Resolved, loads)
    ensures pos + 16 <= |m| && U32(m, pos + 12) != 0 && CString(m, U32(m, pos + 12)).None? ==>
      ImportFrom(m0, pos0, HandlesOf(loads), resolve) == (m, OutOfImage, loads)
  {
    hide U32, CString;
    assert HandlesOf(loads) + [] == HandlesOf(loads);
    assert ImportFrom(m, pos, [], resolve).2 == [];
    assert loads + [] == loads;
  }

  /** One more library. */
  lemma ContinuesStep(m0: seq<byte>, pos0: nat, loads: seq<Load>, m: seq<byte>, pos: nat, resolve: Resolver,
      handle: nat)
    requires Continues(m0, pos0, loads, m, pos, resolve)
    requires pos + 16 <= |m| && U32(m, pos + 12) != 0 && CString(m, U32(m, pos + 12)).Some?
    ensures var loads1 := loads + [Load(CString(m, U32(m, pos + 12)).value, handle)];
      if handle == 0 then ImportFrom(m0, pos0, HandlesOf(loads1), resolve) == (m, NotLoaded, loads1)
      else if pos + DESCRIPTOR_SIZE > |m| then
        ImportFrom(m0, pos0, HandlesOf(loads1), resolve) == (m, OutOfImage, loads1)
      else
        var (m1, status) := ResolveThunks(m, LookupOf(m, pos), U32(m, pos + 16), handle, resolve);
        if status.Resolved? then Continues(m0, pos0, loads1, m1, pos + DESCRIPTOR_SIZE, resolve)
        else ImportFrom(m0, pos0, HandlesOf(loads1), resolve) == (m1, status, loads1)
  {
    hide U32, CString, ResolveThunks, LookupOf;
    var load := Load(CString(m, U32(m, pos + 12)).value, handle);
    var loads1 := loads + [load];
    assert HandlesOf(loads1) == HandlesOf(loads) + [handle];
    assert [handle][1..] == [];
    forall later: seq<nat> ensures HandlesOf(loads1) + later == HandlesOf(loads) + ([handle] + later) {
    }
    forall later: seq<nat> ensures ([handle] + later)[1..] == later {
    }
    forall rest: seq<Load> ensures loads + ([load] + rest) == loads1 + rest {
    }
  }
}
