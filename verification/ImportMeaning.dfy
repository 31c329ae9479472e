/** What a built import table holds, slot by slot. */
module ImportMeaning {
  import opened Bytes
  import opened Wrappers
  import opened Os
  import opened Imports

  /** One descriptor as it lies in the image before any slot is written. */
  datatype Import = Import(name: seq<byte>, lookup: nat, slots: nat, thunks: seq<nat>)

  predicate Apart(lo: nat, hi: nat, lo': nat, hi': nat) { hi <= lo' || hi' <= lo }

  // ----- What is read

  /** Nothing in lo..hi belongs to the string at p. */
  predicate StringApart(m: seq<byte>, p: nat, lo: nat, hi: nat) {
    var s := CString(m, p);
    s.Some? ==> Apart(p, p + |s.value| + 1, lo, hi)
  }

  predicate SymbolApart(m: seq<byte>, thunk: nat, lo: nat, hi: nat) {
    ByItsOrdinal(thunk) || StringApart(m, thunk + 2, lo, hi)
  }

  predicate SymbolsApart(m: seq<byte>, ts: seq<nat>, lo: nat, hi: nat) {
    forall i | 0 <= i < |ts| :: SymbolApart(m, ts[i], lo, hi)
  }

  /** The zero-terminated thunks ts lie at t, name symbols, and have as many slots at f. */
  ghost predicate ThunksAt(m: seq<byte>, t: nat, f: nat, ts: seq<nat>)
    decreases |ts|
  {
    if ts == [] then t + 8 <= |m| && U64(m, t) == 0
    else
      && t + 8 <= |m| && f + 8 <= |m|
      && ts[0] != 0 && U64(m, t) == ts[0] && SymbolOf(m, ts[0]).Some?
      && ThunksAt(m, t + 8, f + 8, ts[1..])
  }

  /** The descriptors ds lie at pos, followed by one without a name. */
  ghost predicate ImportsAt(m: seq<byte>, pos: nat, ds: seq<Import>)
    decreases |ds|
  {
    if ds == [] then pos + 16 <= |m| && U32(m, pos + 12) == 0
    else ImportAt(m, pos, ds[0]) && ImportsAt(m, pos + DESCRIPTOR_SIZE, ds[1..])
  }

  ghost predicate ImportAt(m: seq<byte>, pos: nat, d: Import) {
    && pos + DESCRIPTOR_SIZE <= |m|
    && U32(m, pos + 12) != 0 && CString(m, U32(m, pos + 12)) == Some(d.name)
    && d.lookup == LookupOf(m, pos) && d.slots == U32(m, pos + 16)
    && ThunksAt(m, d.lookup, d.slots, d.thunks)
  }

  function SlotsEnd(d: Import): nat { d.slots + 8 * |d.thunks| }

  /** Resolving the thunks of d overwrites no thunk, string or terminator that is read later for d itself. */
  predicate OwnApart(m: seq<byte>, d: Import) {
    && (d.lookup == d.slots || Apart(d.lookup, d.lookup + 8 * |d.thunks| + 8, d.slots, SlotsEnd(d)))
    && SymbolsApart(m, d.thunks, d.slots, SlotsEnd(d))
  }

  /** Nothing in lo..hi belongs to the descriptor d at pos or to what it points to. */
  predicate ImportApart(m: seq<byte>, pos: nat, d: Import, lo: nat, hi: nat)
    requires pos + DESCRIPTOR_SIZE <= |m|
  {
    && Apart(pos, pos + DESCRIPTOR_SIZE, lo, hi)
    && StringApart(m, U32(m, pos + 12), lo, hi)
    && Apart(d.lookup, d.lookup + 8 * |d.thunks| + 8, lo, hi)
    && SymbolsApart(m, d.thunks, lo, hi)
    && Apart(d.slots, SlotsEnd(d), lo, hi)
  }

  predicate ImportsApart(m: seq<byte>, pos: nat, ds: seq<Import>, lo: nat, hi: nat)
    decreases |ds|
  {
    if ds == [] then Apart(pos, pos + 16, lo, hi)
    else
      && pos + DESCRIPTOR_SIZE <= |m|
      && ImportApart(m, pos, ds[0], lo, hi)
      && ImportsApart(m, pos + DESCRIPTOR_SIZE, ds[1..], lo, hi)
  }

  /** The slots of every descriptor are apart from whatever is read after they are written. */
  predicate SlotsApart(m: seq<byte>, pos: nat, ds: seq<Import>)
    decreases |ds|
  {
    ds == []
    || (&& OwnApart(m, ds[0])
        && ImportsApart(m, pos + DESCRIPTOR_SIZE, ds[1..], ds[0].slots, SlotsEnd(ds[0]))
        && SlotsApart(m, pos + DESCRIPTOR_SIZE, ds[1..]))
  }

  // ----- What is read survives the writes

  lemma GetKept(m: seq<byte>, m': seq<byte>, lo: nat, hi: nat, p: nat, w: nat)
    requires Agree(m, m', lo, hi) && p + w <= |m| && Apart(p, p + w, lo, hi)
    ensures Get(m', p, w) == Get(m, p, w)
  {
    assert m'[p..p + w] == m[p..p + w];
  }

  lemma {:induction false} StringKept(m: seq<byte>, m': seq<byte>, lo: nat, hi: nat, p: nat)
    requires Agree(m, m', lo, hi) && CString(m, p).Some? && StringApart(m, p, lo, hi)
    ensures CString(m', p) == CString(m, p)
    decreases |m| - p
  {
    if m[p] == 0 {
    } else {
      StringKept(m, m', lo, hi, p + 1);
    }
  }

  lemma SymbolKept(m: seq<byte>, m': seq<byte>, lo: nat, hi: nat, thunk: nat)
    requires Agree(m, m', lo, hi) && SymbolOf(m, thunk).Some? && SymbolApart(m, thunk, lo, hi)
    ensures SymbolOf(m', thunk) == SymbolOf(m, thunk)
  {
    if !ByItsOrdinal(thunk) {
      StringKept(m, m', lo, hi, thunk + 2);
    }
  }

  lemma SymbolApartKept(m: seq<byte>, m': seq<byte>, lo: nat, hi: nat, thunk: nat, lo': nat, hi': nat)
    requires Agree(m, m', lo, hi) && SymbolOf(m, thunk).Some? && SymbolApart(m, thunk, lo, hi)
    requires SymbolApart(m, thunk, lo', hi')
    ensures SymbolApart(m', thunk, lo', hi')
  {
    if !ByItsOrdinal(thunk) {
      StringKept(m, m', lo, hi, thunk + 2);
    }
  }

  lemma {:induction false} ThunksKept(m: seq<byte>, m': seq<byte>, lo: nat, hi: nat, t: nat, f: nat, ts: seq<nat>)
    requires Agree(m, m', lo, hi) && ThunksAt(m, t, f, ts)
    requires Apart(t, t + 8 * |ts| + 8, lo, hi) && SymbolsApart(m, ts, lo, hi)
    ensures ThunksAt(m', t, f, ts)
    ensures forall i | 0 <= i < |ts| :: SymbolOf(m, ts[i]).Some? && SymbolOf(m', ts[i]) == SymbolOf(m, ts[i])
    decreases |ts|
  {
    hide SymbolOf, Get, SymbolApart;
    GetKept(m, m', lo, hi, t, 8);
    if ts == [] {
    } else {
      assert SymbolApart(m, ts[0], lo, hi);
      SymbolKept(m, m', lo, hi, ts[0]);
      ThunksKept(m, m', lo, hi, t + 8, f + 8, ts[1..]);
      assert forall i | 1 <= i < |ts| :: ts[i] == ts[1..][i - 1];
    }
  }

  lemma {:induction false} ThunksNameSymbols(m: seq<byte>, t: nat, f: nat, ts: seq<nat>)
    requires ThunksAt(m, t, f, ts)
    ensures forall i | 0 <= i < |ts| :: SymbolOf(m, ts[i]).Some?
    ensures ts != [] ==> f + 8 * |ts| <= |m|
    decreases |ts|
  {
    hide SymbolOf, U64;
    if ts == [] {
    } else {
      ThunksNameSymbols(m, t + 8, f + 8, ts[1..]);
      assert forall i | 1 <= i < |ts| :: ts[i] == ts[1..][i - 1];
    }
  }

  lemma SymbolsApartKept(m: seq<byte>, m': seq<byte>, lo: nat, hi: nat, ts: seq<nat>, lo': nat, hi': nat)
    requires Agree(m, m', lo, hi) && SymbolsApart(m, ts, lo, hi) && SymbolsApart(m, ts, lo', hi')
    requires forall i | 0 <= i < |ts| :: SymbolOf(m, ts[i]).Some?
    ensures SymbolsApart(m', ts, lo', hi')
  {
    hide SymbolOf, SymbolApart;
    forall i | 0 <= i < |ts| ensures SymbolApart(m', ts[i], lo', hi') {
      SymbolApartKept(m, m', lo, hi, ts[i], lo', hi');
    }
  }

  // ----- One library

  function AddressOf(m: seq<byte>, thunk: nat, handle: nat, resolve: Resolver): Option<Address> {
    match SymbolOf(m, thunk)
    case None => None
    case Some(symbol) => resolve(handle, symbol)
  }

  /** Every thunk, read in m, has an address. */
  predicate AllFound(m: seq<byte>, ts: seq<nat>, handle: nat, resolve: Resolver) {
    forall i | 0 <= i < |ts| :: AddressOf(m, ts[i], handle, resolve).Some?
  }

  /** Slot i of m' holds the address of what thunk i asked for in m. */
  ghost predicate SlotsHold(m: seq<byte>, m': seq<byte>, f: nat, ts: seq<nat>, handle: nat, resolve: Resolver) {
    forall i | 0 <= i < |ts| ::
      f + 8 * i + 8 <= |m'| && Some(U64(m', f + 8 * i)) == AddressOf(m, ts[i], handle, resolve)
  }

  lemma SlotWritten(m: seq<byte>, f: nat, address: Address)
    requires f + 8 <= |m|
    ensures var m1 := Set(m, f, 8, address); Agree(m, m1, f, f + 8) && U64(m1, f) == address
  {
    hide Modulus, Le;
    SpliceAt(m, f, Le(address, 8));
    GetOfSet(m, f, 8, address);
    Moduli();
  }

  /**
   The thunks of one library are resolved exactly when each names a symbol with an address. Then every slot
   holds the address for the original thunk at the same index, also when the thunks are overwritten while
   they are read, and nothing else changes.
  */
  lemma {:induction false} ThunksResolve(m: seq<byte>, t: nat, f: nat, ts: seq<nat>, handle: nat, resolve: Resolver)
    requires ThunksAt(m, t, f, ts)
    requires t == f || Apart(t, t + 8 * |ts| + 8, f, f + 8 * |ts|)
    requires SymbolsApart(m, ts, f, f + 8 * |ts|)
    ensures var (m', status) := ResolveThunks(m, t, f, handle, resolve);
      && (status.Resolved? <==> AllFound(m, ts, handle, resolve))
      && (status.Resolved? || status.NotFound?)
      && (status.Resolved? ==> SlotsHold(m, m', f, ts, handle, resolve))
      && (status.Resolved? ==> Agree(m, m', f, f + 8 * |ts|))
    decreases |ts|
  {
    hide SymbolOf, Set, Get, SymbolApart;
    if ts == [] {
    } else {
      var address := AddressOf(m, ts[0], handle, resolve);
      if address.Some? {
        var m1 := Set(m, f, 8, address.value);
        SlotWritten(m, f, address.value);
        RestKept(m, m1, t, f, ts);
        ThunksResolve(m1, t + 8, f + 8, ts[1..], handle, resolve);
        var (m', status) := ResolveThunks(m1, t + 8, f + 8, handle, resolve);
        assert forall i | 1 <= i < |ts| :: ts[i] == ts[1..][i - 1];
        FoundCons(m, m1, ts, handle, resolve);
        ThunksNameSymbols(m, t, f, ts);
        if status.Resolved? {
          SlotsCons(m, m1, m', f, ts, f + 8 * |ts|, handle, resolve);
        }
      }
    }
  }

  /** Writing the first slot leaves the remaining thunks and their symbols as they were. */
  lemma RestKept(m: seq<byte>, m1: seq<byte>, t: nat, f: nat, ts: seq<nat>)
    requires ts != [] && ThunksAt(m, t, f, ts) && Agree(m, m1, f, f + 8)
    requires t == f || Apart(t, t + 8 * |ts| + 8, f, f + 8 * |ts|)
    requires SymbolsApart(m, ts, f, f + 8 * |ts|)
    ensures ThunksAt(m1, t + 8, f + 8, ts[1..])
    ensures SymbolsApart(m1, ts[1..], f + 8, f + 8 * |ts|)
    ensures forall i | 1 <= i < |ts| :: SymbolOf(m1, ts[i]) == SymbolOf(m, ts[i])
  {
    hide SymbolOf, Get, CString;
    var rest := ts[1..];
    forall i | 0 <= i < |rest|
      ensures SymbolApart(m, rest[i], f, f + 8) && SymbolApart(m, rest[i], f + 8, f + 8 * |ts|)
    {
      assert SymbolApart(m, ts[i + 1], f, f + 8 * |ts|);
    }
    ThunksKept(m, m1, f, f + 8, t + 8, f + 8, rest);
    SymbolsApartKept(m, m1, f, f + 8, rest, f + 8, f + 8 * |ts|);
    assert forall i | 1 <= i < |ts| :: ts[i] == rest[i - 1];
  }

  lemma FoundCons(m: seq<byte>, m1: seq<byte>, ts: seq<nat>, handle: nat, resolve: Resolver)
    requires ts != [] && AddressOf(m, ts[0], handle, resolve).Some?
    requires forall i | 1 <= i < |ts| :: SymbolOf(m1, ts[i]) == SymbolOf(m, ts[i])
    ensures AllFound(m, ts, handle, resolve) <==> AllFound(m1, ts[1..], handle, resolve)
  {
    hide SymbolOf;
    var rest := ts[1..];
    forall i | 1 <= i < |ts| ensures rest[i - 1] == ts[i]
      && AddressOf(m1, ts[i], handle, resolve) == AddressOf(m, ts[i], handle, resolve) {
    }
    if AllFound(m, ts, handle, resolve) {
      forall i | 0 <= i < |rest| ensures AddressOf(m1, rest[i], handle, resolve).Some? {
        assert AddressOf(m, ts[i + 1], handle, resolve).Some?;
      }
    }
  }

  lemma SlotsCons(m: seq<byte>, m1: seq<byte>, m': seq<byte>, f: nat, ts: seq<nat>, hi: nat, handle: nat,
      resolve: Resolver)
    requires ts != [] && f + 8 <= |m| && Agree(m, m1, f, f + 8)
    requires Some(U64(m1, f)) == AddressOf(m, ts[0], handle, resolve)
    requires forall i | 1 <= i < |ts| :: SymbolOf(m1, ts[i]) == SymbolOf(m, ts[i])
    requires f + 8 * |ts| <= hi <= |m| && SlotsHold(m1, m', f + 8, ts[1..], handle, resolve)
    requires Agree(m1, m', f + 8, hi)
    ensures SlotsHold(m, m', f, ts, handle, resolve) && Agree(m, m', f, hi)
  {
    hide SymbolOf, Get;
    GetKept(m1, m', f + 8, hi, f, 8);
    forall i | 0 <= i < |ts| ensures Some(U64(m', f + 8 * i)) == AddressOf(m, ts[i], handle, resolve) {
      if i > 0 {
        assert Some(U64(m', f + 8 + 8 * (i - 1))) == AddressOf(m1, ts[1..][i - 1], handle, resolve);
      }
    }
  }

  /** A symbol without an address leaves zero in its slot and the slots before it filled, and ends the library. */
  lemma {:induction false} StopsAtThunk(m: seq<byte>, t: nat, f: nat, ts: seq<nat>, handle: nat, resolve: Resolver,
      n: nat)
    requires ThunksAt(m, t, f, ts) && n < |ts|
    requires t == f || Apart(t, t + 8 * |ts| + 8, f, f + 8 * |ts|)
    requires SymbolsApart(m, ts, f, f + 8 * |ts|)
    requires AllFound(m, ts[..n], handle, resolve) && AddressOf(m, ts[n], handle, resolve).None?
    ensures f + 8 * |ts| <= |m|
    ensures var (m', status) := ResolveThunks(m, t, f, handle, resolve);
      && status == NotFound
      && SlotsHold(m, m', f, ts[..n], handle, resolve) && U64(m', f + 8 * n) == 0
      && Agree(m, m', f, f + 8 * n + 8)
    decreases n
  {
    hide SymbolOf, Set, Get, SymbolApart;
    ThunksNameSymbols(m, t, f, ts);
    if n == 0 {
      SlotWritten(m, f, 0);
    } else {
      var address := AddressOf(m, ts[..n][0], handle, resolve);
      var m1, rest := Set(m, f, 8, address.value), ts[1..];
      SlotWritten(m, f, address.value);
      RestKept(m, m1, t, f, ts);
      assert ts[..n][1..] == rest[..n - 1];
      FoundCons(m, m1, ts[..n], handle, resolve);
      StopsAtThunk(m1, t + 8, f + 8, rest, handle, resolve, n - 1);
      SlotsCons(m, m1, ResolveThunks(m1, t + 8, f + 8, handle, resolve).0, f, ts[..n], f + 8 * n + 8, handle, resolve);
    }
  }

  // ----- All libraries

  lemma ImportKept(m: seq<byte>, m': seq<byte>, lo: nat, hi: nat, pos: nat, d: Import)
    requires Agree(m, m', lo, hi) && ImportAt(m, pos, d) && ImportApart(m, pos, d, lo, hi)
    ensures ImportAt(m', pos, d) && U32(m', pos + 12) == U32(m, pos + 12)
    ensures forall i | 0 <= i < |d.thunks| :: SymbolOf(m', d.thunks[i]) == SymbolOf(m, d.thunks[i])
  {
    hide ThunksAt, SymbolOf, Get, CString, StringApart, SymbolsApart;
    GetKept(m, m', lo, hi, pos, 4);
    GetKept(m, m', lo, hi, pos + 12, 4);
    GetKept(m, m', lo, hi, pos + 16, 4);
    StringKept(m, m', lo, hi, U32(m, pos + 12));
    ThunksKept(m, m', lo, hi, d.lookup, d.slots, d.thunks);
  }

  lemma ImportApartKept(m: seq<byte>, m': seq<byte>, lo: nat, hi: nat, pos: nat, d: Import, lo': nat, hi': nat)
    requires Agree(m, m', lo, hi) && ImportAt(m, pos, d) && ImportApart(m, pos, d, lo, hi)
    requires ImportApart(m, pos, d, lo', hi')
    ensures ImportApart(m', pos, d, lo', hi')
  {
    hide ThunksAt, SymbolOf, SymbolsApart, Get, CString;
    ImportKept(m, m', lo, hi, pos, d);
    ThunksNameSymbols(m, d.lookup, d.slots, d.thunks);
    SymbolsApartKept(m, m', lo, hi, d.thunks, lo', hi');
  }

  lemma {:induction false} ImportsKept(m: seq<byte>, m': seq<byte>, lo: nat, hi: nat, pos: nat, ds: seq<Import>)
    requires Agree(m, m', lo, hi) && ImportsAt(m, pos, ds) && ImportsApart(m, pos, ds, lo, hi)
    ensures ImportsAt(m', pos, ds)
    decreases |ds|
  {
    hide ImportAt, ImportApart, Get;
    if ds == [] {
      GetKept(m, m', lo, hi, pos + 12, 4);
    } else {
      ImportKept(m, m', lo, hi, pos, ds[0]);
      ImportsKept(m, m', lo, hi, pos + DESCRIPTOR_SIZE, ds[1..]);
    }
  }

  lemma {:induction false} ImportsApartKept(m: seq<byte>, m': seq<byte>, lo: nat, hi: nat, pos: nat, ds: seq<Import>,
      lo': nat, hi': nat)
    requires Agree(m, m', lo, hi) && ImportsAt(m, pos, ds) && ImportsApart(m, pos, ds, lo, hi)
    requires ImportsApart(m, pos, ds, lo', hi')
    ensures ImportsApart(m', pos, ds, lo', hi')
    decreases |ds|
  {
    hide ImportAt, ImportApart, U32;
    if ds == [] {
    } else {
      ImportApartKept(m, m', lo, hi, pos, ds[0], lo', hi');
      ImportsApartKept(m, m', lo, hi, pos + DESCRIPTOR_SIZE, ds[1..], lo', hi');
    }
  }

  lemma {:induction false} SlotsApartKept(m: seq<byte>, m': seq<byte>, lo: nat, hi: nat, pos: nat, ds: seq<Import>)
    requires Agree(m, m', lo, hi) && ImportsAt(m, pos, ds) && ImportsApart(m, pos, ds, lo, hi)
    requires SlotsApart(m, pos, ds)
    ensures SlotsApart(m', pos, ds)
    decreases |ds|
  {
    hide ThunksAt, SymbolsApart, StringApart, Get, CString, ImportsApart;
    if ds == [] {
    } else {
      FirstApart(m, pos, ds, lo, hi);
      ThunksNameSymbols(m, ds[0].lookup, ds[0].slots, ds[0].thunks);
      SymbolsApartKept(m, m', lo, hi, ds[0].thunks, ds[0].slots, SlotsEnd(ds[0]));
      ImportsApartKept(m, m', lo, hi, pos + DESCRIPTOR_SIZE, ds[1..], ds[0].slots, SlotsEnd(ds[0]));
      SlotsApartKept(m, m', lo, hi, pos + DESCRIPTOR_SIZE, ds[1..]);
    }
  }

  lemma FirstApart(m: seq<byte>, pos: nat, ds: seq<Import>, lo: nat, hi: nat)
    requires ds != [] && ImportsApart(m, pos, ds, lo, hi)
    ensures SymbolsApart(m, ds[0].thunks, lo, hi)
    ensures ImportsApart(m, pos + DESCRIPTOR_SIZE, ds[1..], lo, hi)
  {
  }

  /** A property of the k-th library carries over to memory that keeps what later libraries read. */
  lemma {:induction false} SymbolsKept(m: seq<byte>, m': seq<byte>, lo: nat, hi: nat, pos: nat, ds: seq<Import>, k: nat)
    requires Agree(m, m', lo, hi) && ImportsAt(m, pos, ds) && ImportsApart(m, pos, ds, lo, hi) && k < |ds|
    ensures forall i | 0 <= i < |ds[k].thunks| :: SymbolOf(m', ds[k].thunks[i]) == SymbolOf(m, ds[k].thunks[i])
    ensures Apart(ds[k].slots, SlotsEnd(ds[k]), lo, hi)
    decreases |ds|
  {
    hide SymbolOf, U32;
    if k == 0 {
      ImportKept(m, m', lo, hi, pos, ds[0]);
    } else {
      SymbolsKept(m, m', lo, hi, pos + DESCRIPTOR_SIZE, ds[1..], k - 1);
    }
  }

  predicate InSlots(ds: seq<Import>, p: int) {
    exists k | 0 <= k < |ds| :: ds[k].slots <= p < SlotsEnd(ds[k])
  }

  /** Every library was loaded and every one of its thunks, read in m, has an address. */
  predicate AllResolvable(m: seq<byte>, ds: seq<Import>, handles: seq<nat>, resolve: Resolver)
    requires |handles| == |ds|
  {
    forall k | 0 <= k < |ds| :: handles[k] != 0 && AllFound(m, ds[k].thunks, handles[k], resolve)
  }

  /** Every slot holds the address for the original thunk at its index, and every other byte is kept. */
  ghost predicate Bound(m: seq<byte>, m': seq<byte>, ds: seq<Import>, handles: seq<nat>, resolve: Resolver)
    requires |handles| == |ds|
  {
    && |m'| == |m|
    && (forall k | 0 <= k < |ds| :: SlotsHold(m, m', ds[k].slots, ds[k].thunks, handles[k], resolve))
    && (forall p | 0 <= p < |m| && !InSlots(ds, p) :: m'[p] == m[p])
  }

  function LoadsOf(ds: seq<Import>, handles: seq<nat>): (loads: seq<Load>)
    requires |handles| == |ds|
    ensures |loads| == |ds|
    ensures forall k | 0 <= k < |ds| :: loads[k] == Load(ds[k].name, handles[k])
  {
    seq(|ds|, k requires 0 <= k < |ds| => Load(ds[k].name, handles[k]))
  }

  /**
   The import table is built exactly when every library is loaded and every thunk names a symbol with an
   address. Then each library of the table is loaded once, in order, every slot of every descriptor holds
   the address of what the original thunk at the same index asked for, and nothing else in the image changes.
  */
  lemma {:induction false} ImportsResolve(m: seq<byte>, pos: nat, ds: seq<Import>, handles: seq<nat>, resolve: Resolver)
    requires ImportsAt(m, pos, ds) && SlotsApart(m, pos, ds) && |handles| == |ds|
    ensures var (m', status, loads) := ImportFrom(m, pos, handles, resolve);
      && (status.Resolved? <==> AllResolvable(m, ds, handles, resolve))
      && !status.OutOfImage?
      && (status.Resolved? ==> Bound(m, m', ds, handles, resolve) && loads == LoadsOf(ds, handles))
    decreases |ds|
  {
    hide ResolveThunks, ThunksAt, CString, U32, LookupOf, ImportsApart, AllFound, Bound, OwnApart, SymbolsApart;
    if ds == [] {
      NoneBound(m, handles, resolve);
    } else if handles[0] != 0 {
      var d, rest, h := ds[0], ds[1..], handles[0];
      var next := pos + DESCRIPTOR_SIZE;
      FirstLibrary(m, pos, d, h, resolve);
      var (m1, status) := ResolveThunks(m, d.lookup, d.slots, h, resolve);
      if status.Resolved? {
        ImportsKept(m, m1, d.slots, SlotsEnd(d), next, rest);
        SlotsApartKept(m, m1, d.slots, SlotsEnd(d), next, rest);
        ImportsResolve(m1, next, rest, handles[1..], resolve);
        ResolvableCons(m, m1, next, ds, handles, resolve);
        var m' := ImportFrom(m1, next, handles[1..], resolve).0;
        if AllResolvable(m1, rest, handles[1..], resolve) {
          BoundCons(m, m1, m', next, ds, handles, resolve);
          assert [Load(d.name, h)] + LoadsOf(rest, handles[1..]) == LoadsOf(ds, handles);
        }
      }
    }
  }

  /** A library that cannot be loaded or resolved ends the import with its status; none is asked for after it. */
  lemma {:induction false} StopsAtLibrary(m: seq<byte>, pos: nat, ds: seq<Import>, handles: seq<nat>,
      resolve: Resolver, k: nat)
    requires ImportsAt(m, pos, ds) && SlotsApart(m, pos, ds) && |handles| == |ds| && k < |ds|
    requires forall j | 0 <= j < k :: handles[j] != 0 && AllFound(m, ds[j].thunks, handles[j], resolve)
    requires handles[k] == 0 || !AllFound(m, ds[k].thunks, handles[k], resolve)
    ensures var (m', status, loads) := ImportFrom(m, pos, handles, resolve);
      status == (if handles[k] == 0 then NotLoaded else NotFound) && loads == LoadsOf(ds, handles)[..k + 1]
    decreases k
  {
    hide ResolveThunks, ThunksAt, CString, U32, LookupOf, ImportsApart, AllFound, OwnApart, SymbolsApart, SlotsHold;
    var d, rest, hs, next := ds[0], ds[1..], handles[1..], pos + DESCRIPTOR_SIZE;
    FirstLibrary(m, pos, d, handles[0], resolve);
    if k > 0 {
      assert handles[0] != 0 && AllFound(m, ds[0].thunks, handles[0], resolve);
      var m1 := ResolveThunks(m, d.lookup, d.slots, handles[0], resolve).0;
      ImportsKept(m, m1, d.slots, SlotsEnd(d), next, rest);
      SlotsApartKept(m, m1, d.slots, SlotsEnd(d), next, rest);
      forall j | 1 <= j < |ds|
        ensures AllFound(m1, ds[j].thunks, handles[j], resolve) <==> AllFound(m, ds[j].thunks, handles[j], resolve)
      {
        SymbolsKept(m, m1, d.slots, SlotsEnd(d), next, rest, j - 1);
        SameAddresses(m, m1, ds[j].thunks, handles[j], resolve);
      }
      forall j | 0 <= j < k - 1 ensures hs[j] != 0 && AllFound(m1, rest[j].thunks, hs[j], resolve) {
        assert AllFound(m, ds[j + 1].thunks, handles[j + 1], resolve);
      }
      StopsAtLibrary(m1, next, rest, hs, resolve, k - 1);
      LoadsCons(ds, handles, k);
    }
  }

  lemma LoadsCons(ds: seq<Import>, handles: seq<nat>, k: nat)
    requires |handles| == |ds| && 0 < k < |ds|
    ensures [Load(ds[0].name, handles[0])] + LoadsOf(ds[1..], handles[1..])[..k] == LoadsOf(ds, handles)[..k + 1]
  {
  }

  /** A table that is built has loaded as many libraries as it has descriptors. */
  lemma {:induction false} OneLoadEach(m: seq<byte>, pos: nat, ds: seq<Import>, handles: seq<nat>, resolve: Resolver)
    requires ImportsAt(m, pos, ds) && SlotsApart(m, pos, ds)
    ensures var (m', status, loads) := ImportFrom(m, pos, handles, resolve);
      status.Resolved? ==> |loads| == |ds|
    decreases |ds|
  {
    hide ResolveThunks, ThunksAt, CString, U32, LookupOf, ImportsApart, AllFound, OwnApart, SymbolsApart;
    if ds == [] || handles == [] || handles[0] == 0 {
    } else {
      var d, next := ds[0], pos + DESCRIPTOR_SIZE;
      FirstLibrary(m, pos, d, handles[0], resolve);
      var (m1, status) := ResolveThunks(m, d.lookup, d.slots, handles[0], resolve);
      if status.Resolved? {
        ImportsKept(m, m1, d.slots, SlotsEnd(d), next, ds[1..]);
        SlotsApartKept(m, m1, d.slots, SlotsEnd(d), next, ds[1..]);
        OneLoadEach(m1, next, ds[1..], handles[1..], resolve);
      }
    }
  }

  lemma NoneBound(m: seq<byte>, handles: seq<nat>, resolve: Resolver)
    requires handles == []
    ensures Bound(m, m, [], handles, resolve) && LoadsOf([], handles) == []
  {
  }

  lemma FirstLibrary(m: seq<byte>, pos: nat, d: Import, h: nat, resolve: Resolver)
    requires ImportAt(m, pos, d) && OwnApart(m, d)
    ensures var (m', status) := ResolveThunks(m, d.lookup, d.slots, h, resolve);
      && (status.Resolved? <==> AllFound(m, d.thunks, h, resolve))
      && (status.Resolved? || status.NotFound?)
      && (status.Resolved? ==>
            SlotsHold(m, m', d.slots, d.thunks, h, resolve) && Agree(m, m', d.slots, SlotsEnd(d)))
  {
    hide ResolveThunks, ThunksAt, SymbolsApart, Get, CString, AllFound, SlotsHold, Agree;
    ThunksResolve(m, d.lookup, d.slots, d.thunks, h, resolve);
  }

  lemma SameAddresses(m: seq<byte>, m1: seq<byte>, ts: seq<nat>, h: nat, resolve: Resolver)
    requires forall i | 0 <= i < |ts| :: SymbolOf(m1, ts[i]) == SymbolOf(m, ts[i])
    ensures forall i | 0 <= i < |ts| :: AddressOf(m1, ts[i], h, resolve) == AddressOf(m, ts[i], h, resolve)
    ensures AllFound(m1, ts, h, resolve) <==> AllFound(m, ts, h, resolve)
  {
    hide SymbolOf;
    forall i | 0 <= i < |ts| ensures AddressOf(m1, ts[i], h, resolve) == AddressOf(m, ts[i], h, resolve) {
    }
  }

  lemma ResolvableCons(m: seq<byte>, m1: seq<byte>, next: nat, ds: seq<Import>, handles: seq<nat>, resolve: Resolver)
    requires ds != [] && |handles| == |ds| && handles[0] != 0
    requires AllFound(m, ds[0].thunks, handles[0], resolve)
    requires Agree(m, m1, ds[0].slots, SlotsEnd(ds[0]))
    requires ImportsAt(m, next, ds[1..]) && ImportsApart(m, next, ds[1..], ds[0].slots, SlotsEnd(ds[0]))
    ensures AllResolvable(m, ds, handles, resolve) <==> AllResolvable(m1, ds[1..], handles[1..], resolve)
  {
    hide SymbolOf, ImportsAt, ImportsApart, AllFound, Agree, AddressOf;
    var rest, hs := ds[1..], handles[1..];
    forall k | 1 <= k < |ds|
      ensures rest[k - 1] == ds[k] && hs[k - 1] == handles[k]
      ensures AllFound(m1, ds[k].thunks, handles[k], resolve) <==> AllFound(m, ds[k].thunks, handles[k], resolve)
    {
      SymbolsKept(m, m1, ds[0].slots, SlotsEnd(ds[0]), next, rest, k - 1);
      SameAddresses(m, m1, ds[k].thunks, handles[k], resolve);
    }
    if AllResolvable(m, ds, handles, resolve) {
      forall k | 0 <= k < |rest| ensures hs[k] != 0 && AllFound(m1, rest[k].thunks, hs[k], resolve) {
        assert AllFound(m, ds[k + 1].thunks, handles[k + 1], resolve);
      }
    }
    if AllResolvable(m1, rest, hs, resolve) {
      forall k | 0 <= k < |ds| ensures handles[k] != 0 && AllFound(m, ds[k].thunks, handles[k], resolve) {
        if k > 0 {
          assert AllFound(m1, rest[k - 1].thunks, hs[k - 1], resolve);
        }
      }
    }
  }

  lemma BoundCons(m: seq<byte>, m1: seq<byte>, m': seq<byte>, next: nat, ds: seq<Import>, handles: seq<nat>,
      resolve: Resolver)
    requires ds != [] && |handles| == |ds|
    requires SlotsHold(m, m1, ds[0].slots, ds[0].thunks, handles[0], resolve)
    requires Agree(m, m1, ds[0].slots, SlotsEnd(ds[0]))
    requires ImportsAt(m, next, ds[1..]) && ImportsApart(m, next, ds[1..], ds[0].slots, SlotsEnd(ds[0]))
    requires Bound(m1, m', ds[1..], handles[1..], resolve)
    ensures Bound(m, m', ds, handles, resolve)
  {
    hide SymbolOf, ImportsAt, ImportsApart, AddressOf, Get;
    var rest, hs := ds[1..], handles[1..];
    var lo, hi := ds[0].slots, SlotsEnd(ds[0]);
    forall p | lo <= p < hi ensures !InSlots(rest, p) {
      forall k | 0 <= k < |rest| ensures !(rest[k].slots <= p < SlotsEnd(rest[k])) {
        SymbolsKept(m, m1, lo, hi, next, rest, k);
      }
    }
    FirstSlotsKept(m, m1, m', ds[0], handles[0], resolve);
    forall k | 1 <= k < |ds| ensures SlotsHold(m, m', ds[k].slots, ds[k].thunks, handles[k], resolve) {
      SymbolsKept(m, m1, lo, hi, next, rest, k - 1);
      SameAddresses(m, m1, ds[k].thunks, handles[k], resolve);
      assert rest[k - 1] == ds[k] && hs[k - 1] == handles[k];
    }
    forall p | 0 <= p < |m| && !InSlots(ds, p) ensures m'[p] == m[p] {
      assert !(ds[0].slots <= p < SlotsEnd(ds[0]));
      forall k | 0 <= k < |rest| ensures !(rest[k].slots <= p < SlotsEnd(rest[k])) {
        assert rest[k] == ds[k + 1];
      }
      assert !InSlots(rest, p);
    }
  }

  lemma FirstSlotsKept(m: seq<byte>, m1: seq<byte>, m': seq<byte>, d: Import, h: nat, resolve: Resolver)
    requires SlotsHold(m, m1, d.slots, d.thunks, h, resolve) && |m'| == |m1|
    requires forall p | d.slots <= p < SlotsEnd(d) && p < |m1| :: m'[p] == m1[p]
    ensures SlotsHold(m, m', d.slots, d.thunks, h, resolve)
  {
    hide AddressOf, Value;
    forall i | 0 <= i < |d.thunks| ensures d.slots + 8 * i + 8 <= |m'|
      && Some(U64(m', d.slots + 8 * i)) == AddressOf(m, d.thunks[i], h, resolve) {
      var p := d.slots + 8 * i;
      assert m'[p..p + 8] == m1[p..p + 8];
    }
  }
}
