/**
 The operating system as the loader sees it. Outcomes are arbitrary; what is fixed is what Windows
 promises: a new reservation is aligned, lies in the user half and is disjoint from every live one, a
 commit succeeds only inside a live reservation, and handles are not zero.
 */
module Os {
  import opened Bytes
  import opened Wrappers

  const PAGE: nat := 0x1000
  const GRANULARITY: nat := 0x1_0000
  const USER_LIMIT: nat := 0x8000_0000_0000

  type Address = x: int | 0 <= x < 0x1_0000_0000_0000_0000

  datatype Symbol = ByOrdinal(ordinal: nat) | ByName(name: seq<byte>)

  /** One call that loads a library and the handle it returned. */
  datatype Load = Load(name: seq<byte>, handle: nat)

  datatype PageAction =
    | Decommit(address: nat, size: nat)
    | Protect(address: nat, size: nat, protection: nat)

  /** A notification of the entry point of the module at base. */
  datatype EntryCall = Attach(base: nat) | Detach(base: nat)

  /** What the system has refused to do. */
  datatype Refusal =
    | NoMemory(wanted: nat, size: nat)
    | NotCommitted(address: nat, size: nat)
    | NoLibrary(name: seq<byte>)
    | NotProtected(address: nat, size: nat, protection: nat)
    | NotHooked
    | Declined(call: EntryCall)

  predicate Overlap(a: nat, aSize: nat, b: nat, bSize: nat) {
    a < b + bSize && b < a + aSize
  }

  predicate Placeable(reserved: map<nat, nat>, base: nat, size: nat) {
    && 0 < base && 0 < size && base % GRANULARITY == 0 && base + size <= USER_LIMIT
    && forall b | b in reserved :: !Overlap(b, reserved[b], base, size)
  }

  /** The live reservations are disjoint blocks of the user half. */
  predicate Consistent(reserved: map<nat, nat>) {
    && (forall b | b in reserved :: 0 < b && 0 < reserved[b] && b % GRANULARITY == 0 && b + reserved[b] <= USER_LIMIT)
    && (forall b, c | b in reserved && c in reserved && b != c :: !Overlap(b, reserved[b], c, reserved[c]))
  }

  class OperatingSystem {
    /** Live reservations: base to size. */
    var reserved: map<nat, nat>
    /** Library handles, each as often as it has been loaded and not freed. */
    var libraries: multiset<nat>
    /** Calls that load a library, oldest first. */
    var loads: seq<Load>
    /** Page state changes requested so far, oldest first. */
    var actions: seq<PageAction>

    /** Notifications of entry points, oldest first. */
    var entryCalls: seq<EntryCall>
    /** Requests that were refused, oldest first. */
    var refusals: seq<Refusal>

    const resolve: (nat, Symbol) -> Option<Address>

    constructor (resolve: (nat, Symbol) -> Option<Address>)
      ensures reserved == map[] && libraries == multiset{} && loads == [] && actions == [] && entryCalls == []
      ensures refusals == []
    {
      this.resolve := resolve;
      reserved, libraries, loads, actions, entryCalls, refusals := map[], multiset{}, [], [], [], [];
    }

    /** Reserves and commits a block at the wanted address, or anywhere for address 0; base 0 stands for failure. */
    method VirtualAlloc(wanted: nat, size: nat) returns (base: nat)
      requires Consistent(reserved)
      modifies this`reserved, this`refusals
      ensures Consistent(reserved)
      ensures base == 0 ==> reserved == old(reserved)
      ensures refusals == if base == 0 then old(refusals) + [NoMemory(wanted, size)] else old(refusals)
      ensures base != 0 && wanted != 0 ==> base == wanted - wanted % GRANULARITY
      ensures base != 0 ==> Placeable(old(reserved), base, size) && base !in old(reserved)
      ensures base != 0 ==> reserved == old(reserved)[base := size]
    {
      base := *;
      if wanted != 0 {
        base := wanted - wanted % GRANULARITY;
      }
      if Placeable(reserved, base, size) {
        assert base in reserved ==> Overlap(base, reserved[base], base, size);
        reserved := reserved[base := size];
      } else {
        base := 0;
        refusals := refusals + [NoMemory(wanted, size)];
      }
    }

    method Commit(address: nat, size: nat) returns (ok: bool)
      modifies this`refusals
      ensures refusals == if ok then old(refusals) else old(refusals) + [NotCommitted(address, size)]
      ensures ok ==> exists b | b in reserved :: b <= address && address + size <= b + reserved[b]
    {
      ok := *;
      ok := ok && exists b | b in reserved :: b <= address && address + size <= b + reserved[b];
      if !ok {
        refusals := refusals + [NotCommitted(address, size)];
      }
    }

    /** Gives a whole reservation back; only a live one may be given back. */
    method Release(base: nat)
      requires base in reserved
      modifies this`reserved
      ensures reserved == old(reserved) - {base}
    {
      reserved := reserved - {base};
    }

    /** Handle 0 stands for failure. */
    method LoadLibraryEx(name: seq<byte>) returns (handle: nat)
      modifies this`libraries, this`loads, this`refusals
      ensures refusals == if handle == 0 then old(refusals) + [NoLibrary(name)] else old(refusals)
      ensures loads == old(loads) + [Load(name, handle)]
      ensures libraries == if handle == 0 then old(libraries) else old(libraries) + multiset{handle}
    {
      handle := *;
      loads := loads + [Load(name, handle)];
      if handle != 0 {
        libraries := libraries + multiset{handle};
      } else {
        refusals := refusals + [NoLibrary(name)];
      }
    }

    /** Only a loaded handle may be freed. */
    method FreeLibrary(handle: nat)
      requires handle in libraries
      modifies this`libraries
      ensures libraries == old(libraries) - multiset{handle}
    {
      libraries := libraries - multiset{handle};
    }

    method VirtualDecommit(address: nat, size: nat)
      modifies this`actions
      ensures actions == old(actions) + [Decommit(address, size)]
    {
      actions := actions + [Decommit(address, size)];
    }

    method VirtualProtect(address: nat, size: nat, protection: nat) returns (ok: bool)
      modifies this`actions, this`refusals
      ensures refusals == if ok then old(refusals) else old(refusals) + [NotProtected(address, size, protection)]
      ensures actions == if ok then old(actions) + [Protect(address, size, protection)] else old(actions)
    {
      ok := *;
      if ok {
        actions := actions + [Protect(address, size, protection)];
      } else {
        refusals := refusals + [NotProtected(address, size, protection)];
      }
    }

    /** Installs the process-wide hook, or reports that it could not be installed. */
    method Hook() returns (ok: bool)
      modifies this`refusals
      ensures refusals == if ok then old(refusals) else old(refusals) + [NotHooked]
    {
      ok := *;
      if !ok {
        refusals := refusals + [NotHooked];
      }
    }

    /** Calls the entry point of a module whose memory is live; it may decline. */
    method CallEntry(call: EntryCall) returns (ok: bool)
      requires call.base in reserved
      modifies this`entryCalls, this`refusals
      ensures entryCalls == old(entryCalls) + [call]
      ensures refusals == if ok then old(refusals) else old(refusals) + [Declined(call)]
    {
      ok := *;
      entryCalls := entryCalls + [call];
      if !ok {
        refusals := refusals + [Declined(call)];
      }
    }
  }
}
