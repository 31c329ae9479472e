/** What the bytes of an import table ask for, and that a built table has it. */
module ImportBytes {
  import opened Bytes
  import opened Wrappers
  import opened Os
  import opened Imports
  import opened ImportMeaning

  // ----- Names and symbols

  /** The bytes s lie at p, none of them zero, followed by a zero. */
  predicate StringAt(m: seq<byte>, p: nat, s: seq<byte>) {
    p + |s| < |m| && m[p..p + |s|] == s && 0 !in s && m[p + |s|] == 0
  }

  lemma {:induction false} StringRead(m: seq<byte>, p: nat, s: seq<byte>)
    ensures CString(m, p) == Some(s) <==> StringAt(m, p, s)
    decreases |m| - p
  {
    if p < |m| && m[p] != 0 {
      if s != [] {
        StringRead(m, p + 1, s[1..]);
        StringBehind(m, p, s);
      }
    }
  }

  lemma StringBehind(m: seq<byte>, p: nat, s: seq<byte>)
    requires p < |m| && m[p] != 0 && s != []
    ensures StringAt(m, p, s) <==> s[0] == m[p] && StringAt(m, p + 1, s[1..])
    ensures CString(m, p) == Some(s) <==> s[0] == m[p] && CString(m, p + 1) == Some(s[1..])
  {
    assert s == [s[0]] + s[1..];
    if StringAt(m, p, s) {
      assert m[p + 1..p + |s|] == s[1..];
    }
    if s[0] == m[p] && StringAt(m, p + 1, s[1..]) {
      assert m[p..p + |s|] == [m[p]] + m[p + 1..p + |s|];
    }
  }

  /** Without a zero from p on there is no string. */
  lemma {:induction false} NoString(m: seq<byte>, p: nat)
    ensures CString(m, p) == None <==> forall k | p <= k < |m| :: m[k] != 0
    decreases |m| - p
  {
    if p < |m| && m[p] != 0 {
      NoString(m, p + 1);
    }
  }

  /**
   A thunk of 64 bits asks for the ordinal in its low 16 bits when its top bit is set, and otherwise for the name two
   bytes behind the offset it holds.
  */
  predicate AsksFor(m: seq<byte>, thunk: nat, symbol: Symbol) {
    match symbol
    case ByOrdinal(ordinal) => thunk >= 0x8000_0000_0000_0000 && ordinal == thunk % 0x1_0000
    case ByName(name) => thunk < 0x8000_0000_0000_0000 && StringAt(m, thunk + 2, name)
  }

  lemma SymbolRead(m: seq<byte>, thunk: nat, symbol: Symbol)
    requires thunk < 0x1_0000_0000_0000_0000
    ensures SymbolOf(m, thunk) == Some(symbol) <==> AsksFor(m, thunk, symbol)
  {
    hide CString, StringAt;
    if symbol.ByName? {
      StringRead(m, thunk + 2, symbol.name);
    }
  }

  // ----- The table

  /** Offset of the thunks that are read for the descriptor at pos. */
  function LookupAt(m: seq<byte>, pos: nat): nat
    requires pos + 20 <= |m|
  {
    if U32(m, pos) != 0 then U32(m, pos) else U32(m, pos + 16)
  }

  /** The descriptor of 20 bytes at pos: its library, its thunks and its slots. */
  ghost predicate DescriptorAt(m: seq<byte>, pos: nat, d: Import) {
    && pos + 20 <= |m|
    && U32(m, pos + 12) != 0 && StringAt(m, U32(m, pos + 12), d.name)
    && d.lookup == LookupAt(m, pos) && d.slots == U32(m, pos + 16)
    && ThunksFrom(m, d.lookup, d.slots, d.thunks)
  }

  /** The thunks ts lie at t, followed by a zero; each asks for something and has a slot of 8 bytes. */
  ghost predicate ThunksFrom(m: seq<byte>, t: nat, f: nat, ts: seq<nat>) {
    && t + 8 * |ts| + 8 <= |m| && U64(m, t + 8 * |ts|) == 0
    && forall i | 0 <= i < |ts| :: ThunkHere(m, t + 8 * i, f + 8 * i, ts[i])
  }

  ghost predicate ThunkHere(m: seq<byte>, t: nat, f: nat, thunk: nat) {
    t + 8 <= |m| && f + 8 <= |m| && thunk == U64(m, t) && thunk != 0 && AsksForSome(m, thunk)
  }

  ghost predicate AsksForSome(m: seq<byte>, thunk: nat) {
    exists symbol :: AsksFor(m, thunk, symbol)
  }

  /** The table at pos has the descriptors ds and ends with one that names no library. */
  ghost predicate DescriptorsAt(m: seq<byte>, pos: nat, ds: seq<Import>) {
    && pos + 20 * |ds| + 16 <= |m| && U32(m, pos + 20 * |ds| + 12) == 0
    && forall k | 0 <= k < |ds| :: DescriptorAt(m, pos + 20 * k, ds[k])
  }

  lemma ThunkBound(m: seq<byte>, p: nat)
    requires p + 8 <= |m|
    ensures U64(m, p) < 0x1_0000_0000_0000_0000
  {
    ValueBound(m[p..p + 8]);
    Moduli();
  }

  lemma AsksForSomething(m: seq<byte>, thunk: nat)
    requires thunk < 0x1_0000_0000_0000_0000
    ensures SymbolOf(m, thunk).Some? <==> AsksForSome(m, thunk)
  {
    hide SymbolOf, AsksFor;
    if SymbolOf(m, thunk).Some? {
      SymbolRead(m, thunk, SymbolOf(m, thunk).value);
    }
    if AsksForSome(m, thunk) {
      var symbol :| AsksFor(m, thunk, symbol);
      SymbolRead(m, thunk, symbol);
    }
  }

  lemma {:induction false} ThunksRead(m: seq<byte>, t: nat, f: nat, ts: seq<nat>)
    ensures ThunksFrom(m, t, f, ts) <==> ThunksAt(m, t, f, ts)
    decreases |ts|
  {
    hide SymbolOf, AsksFor, U64;
    if ts != [] {
      ThunksRead(m, t + 8, f + 8, ts[1..]);
      ThunksCons(m, t, f, ts);
    }
  }

  lemma ThunksCons(m: seq<byte>, t: nat, f: nat, ts: seq<nat>)
    requires ts != []
    ensures ThunksFrom(m, t, f, ts) <==>
      && t + 8 <= |m| && f + 8 <= |m|
      && ts[0] != 0 && U64(m, t) == ts[0] && SymbolOf(m, ts[0]).Some?
      && ThunksFrom(m, t + 8, f + 8, ts[1..])
  {
    hide SymbolOf, AsksForSome, U64;
    FirstThunk(m, t, f, ts[0]);
    ThunksSplit(m, t, f, ts);
  }

  lemma FirstThunk(m: seq<byte>, t: nat, f: nat, thunk: nat)
    ensures ThunkHere(m, t, f, thunk) <==>
      t + 8 <= |m| && f + 8 <= |m| && thunk != 0 && U64(m, t) == thunk && SymbolOf(m, thunk).Some?
  {
    hide SymbolOf, AsksForSome, U64;
    if t + 8 <= |m| && U64(m, t) == thunk {
      ThunkBound(m, t);
      AsksForSomething(m, thunk);
    }
  }

  lemma ThunksSplit(m: seq<byte>, t: nat, f: nat, ts: seq<nat>)
    requires ts != []
    ensures ThunksFrom(m, t, f, ts) <==> ThunkHere(m, t, f, ts[0]) && ThunksFrom(m, t + 8, f + 8, ts[1..])
  {
    hide ThunkHere, U64;
    var rest := ts[1..];
    if ThunksFrom(m, t, f, ts) {
      forall i | 0 <= i < |rest| ensures ThunkHere(m, t + 8 + 8 * i, f + 8 + 8 * i, rest[i]) {
        assert ThunkHere(m, t + 8 * (i + 1), f + 8 * (i + 1), ts[i + 1]);
      }
    }
    if ThunkHere(m, t, f, ts[0]) && ThunksFrom(m, t + 8, f + 8, rest) {
      forall i | 0 <= i < |ts| ensures ThunkHere(m, t + 8 * i, f + 8 * i, ts[i]) {
        if i > 0 {
          assert ThunkHere(m, t + 8 + 8 * (i - 1), f + 8 + 8 * (i - 1), rest[i - 1]);
        }
      }
    }
  }

  lemma DescriptorRead(m: seq<byte>, pos: nat, d: Import)
    ensures DescriptorAt(m, pos, d) <==> ImportAt(m, pos, d)
  {
    hide CString, StringAt, U32, ThunksFrom, ThunksAt;
    ThunksRead(m, d.lookup, d.slots, d.thunks);
    if pos + 20 <= |m| {
      StringRead(m, U32(m, pos + 12), d.name);
    }
  }

  lemma {:induction false} TableRead(m: seq<byte>, pos: nat, ds: seq<Import>)
    ensures DescriptorsAt(m, pos, ds) <==> ImportsAt(m, pos, ds)
    decreases |ds|
  {
    hide DescriptorAt, ImportAt, U32;
    if ds != [] {
      var rest := ds[1..];
      TableRead(m, pos + 20, rest);
      DescriptorRead(m, pos, ds[0]);
      assert forall k | 0 <= k < |rest| :: rest[k] == ds[k + 1];
      DescriptorsCons(m, pos, ds);
    }
  }

  lemma DescriptorsCons(m: seq<byte>, pos: nat, ds: seq<Import>)
    requires ds != []
    ensures DescriptorsAt(m, pos, ds) <==> DescriptorAt(m, pos, ds[0]) && DescriptorsAt(m, pos + 20, ds[1..])
  {
    hide DescriptorAt, U32;
    var rest := ds[1..];
    if DescriptorsAt(m, pos, ds) {
      forall k | 0 <= k < |rest| ensures DescriptorAt(m, pos + 20 + 20 * k, rest[k]) {
        assert DescriptorAt(m, pos + 20 * (k + 1), ds[k + 1]);
      }
    }
    if DescriptorAt(m, pos, ds[0]) && DescriptorsAt(m, pos + 20, rest) {
      forall k | 0 <= k < |ds| ensures DescriptorAt(m, pos + 20 * k, ds[k]) {
        if k > 0 {
          assert DescriptorAt(m, pos + 20 + 20 * (k - 1), rest[k - 1]);
        }
      }
    }
  }

  lemma SlotsField(m: seq<byte>, pos: nat, ds: seq<Import>, k: nat)
    requires DescriptorsAt(m, pos, ds) && k < |ds|
    ensures pos + 20 * k + 20 <= |m| && ds[k].slots == U32(m, pos + 20 * k + 16)
  {
    hide StringAt, ThunksFrom, U32;
    assert DescriptorAt(m, pos + 20 * k, ds[k]);
  }

  // ----- What a built table has

  /** Whatever the thunks ask for has an address. */
  ghost predicate AllAnswered(m: seq<byte>, ts: seq<nat>, handle: nat, resolve: Resolver) {
    forall i, symbol | 0 <= i < |ts| && AsksFor(m, ts[i], symbol) :: resolve(handle, symbol).Some?
  }

  predicate SlotHas(m: seq<byte>, p: nat, answer: Option<Address>) {
    p + 8 <= |m| && Some(U64(m, p)) == answer
  }

  /** Slot i of m' holds the address of what thunk i asked for in m. */
  ghost predicate Answered(m: seq<byte>, m': seq<byte>, f: nat, ts: seq<nat>, handle: nat, resolve: Resolver) {
    forall i, symbol | 0 <= i < |ts| && AsksFor(m, ts[i], symbol) ::
      SlotHas(m', f + 8 * i, resolve(handle, symbol))
  }

  /** The load asked for the name that lies where the descriptor at pos says. */
  predicate AskedLibrary(m: seq<byte>, pos: nat, load: Load, handle: nat) {
    load.handle == handle && pos + 20 <= |m| && StringAt(m, U32(m, pos + 12), load.name)
  }

  /** The library of the descriptor was loaded by its name, and its slots are answered. */
  ghost predicate Imported(m: seq<byte>, m': seq<byte>, pos: nat, d: Import, load: Load, handle: nat,
      resolve: Resolver) {
    && AskedLibrary(m, pos, load, handle)
    && Answered(m, m', U32(m, pos + 16), d.thunks, handle, resolve)
  }

  lemma ImportedKept(m: seq<byte>, before: seq<byte>, image: seq<byte>, pos: nat, d: Import, load: Load,
      resolve: Resolver)
    requires Imported(m, before, pos, d, load, load.handle, resolve) && |image| == |before|
    requires d.slots == U32(m, pos + 16)
    requires forall p | d.slots <= p < SlotsEnd(d) && p < |image| :: image[p] == before[p]
    ensures Imported(m, image, pos, d, load, load.handle, resolve)
  {
    hide AsksFor, Value, StringAt;
    var f := d.slots;
    assert Answered(m, before, f, d.thunks, load.handle, resolve);
    forall i, symbol | 0 <= i < |d.thunks| && AsksFor(m, d.thunks[i], symbol)
      ensures SlotHas(image, f + 8 * i, resolve(load.handle, symbol))
    {
      assert SlotHas(before, f + 8 * i, resolve(load.handle, symbol));
      assert image[f + 8 * i..f + 8 * i + 8] == before[f + 8 * i..f + 8 * i + 8];
    }
    assert Answered(m, image, f, d.thunks, load.handle, resolve);
  }

  ghost predicate AllAsk(m: seq<byte>, ts: seq<nat>) {
    forall i | 0 <= i < |ts| :: ts[i] < 0x1_0000_0000_0000_0000 && AsksForSome(m, ts[i])
  }

  lemma ThunksAsk(m: seq<byte>, t: nat, f: nat, ts: seq<nat>)
    requires ThunksFrom(m, t, f, ts)
    ensures AllAsk(m, ts)
  {
    hide AsksForSome, U64;
    forall i | 0 <= i < |ts| ensures ts[i] < 0x1_0000_0000_0000_0000 && AsksForSome(m, ts[i]) {
      assert ThunkHere(m, t + 8 * i, f + 8 * i, ts[i]);
      ThunkBound(m, t + 8 * i);
    }
  }

  lemma AnsweredExactly(m: seq<byte>, m': seq<byte>, f: nat, ts: seq<nat>, handle: nat, resolve: Resolver)
    requires AllAsk(m, ts)
    ensures AllAnswered(m, ts, handle, resolve) <==> AllFound(m, ts, handle, resolve)
    ensures SlotsHold(m, m', f, ts, handle, resolve) ==> Answered(m, m', f, ts, handle, resolve)
  {
    hide AsksFor, SymbolOf, U64;
    forall i, symbol | 0 <= i < |ts| && AsksFor(m, ts[i], symbol)
      ensures AddressOf(m, ts[i], handle, resolve) == resolve(handle, symbol)
    {
      SymbolRead(m, ts[i], symbol);
    }
    if AllAnswered(m, ts, handle, resolve) {
      forall i | 0 <= i < |ts| ensures AddressOf(m, ts[i], handle, resolve).Some? {
        assert AsksForSome(m, ts[i]);
        var symbol :| AsksFor(m, ts[i], symbol);
        assert resolve(handle, symbol).Some?;
        assert AddressOf(m, ts[i], handle, resolve) == resolve(handle, symbol);
      }
    }
  }

  /**
   The thunks of a library, read as the format says: they are resolved exactly when everything they ask for has an
   address, and then every slot holds the address of what the original thunk at its index asked for.
  */
  lemma ThunksAnswered(m: seq<byte>, t: nat, f: nat, ts: seq<nat>, handle: nat, resolve: Resolver)
    requires ThunksFrom(m, t, f, ts)
    requires t == f || Apart(t, t + 8 * |ts| + 8, f, f + 8 * |ts|)
    requires SymbolsApart(m, ts, f, f + 8 * |ts|)
    ensures var (m', status) := ResolveThunks(m, t, f, handle, resolve);
      && (status.Resolved? <==> AllAnswered(m, ts, handle, resolve))
      && (status.Resolved? || status.NotFound?)
      && (status.Resolved? ==>
            Answered(m, m', f, ts, handle, resolve) && Agree(m, m', f, f + 8 * |ts|))
  {
    hide AsksFor, SymbolOf, ResolveThunks, ThunksFrom, ThunksAt, AllAnswered, AllFound, Answered, SlotsHold,
      SymbolsApart;
    ThunksRead(m, t, f, ts);
    ThunksResolve(m, t, f, ts, handle, resolve);
    ThunksAsk(m, t, f, ts);
    AnsweredExactly(m, ResolveThunks(m, t, f, handle, resolve).0, f, ts, handle, resolve);
  }

  /** The first thunk whose symbol has no address ends the library: its slot is zero, those before it are answered. */
  lemma ThunkUnanswered(m: seq<byte>, t: nat, f: nat, ts: seq<nat>, handle: nat, resolve: Resolver, n: nat,
      symbol: Symbol)
    requires ThunksFrom(m, t, f, ts) && n < |ts|
    requires t == f || Apart(t, t + 8 * |ts| + 8, f, f + 8 * |ts|)
    requires SymbolsApart(m, ts, f, f + 8 * |ts|)
    requires AllAnswered(m, ts[..n], handle, resolve) && AsksFor(m, ts[n], symbol) && resolve(handle, symbol).None?
    ensures f + 8 * n + 8 <= |m|
    ensures var (m', status) := ResolveThunks(m, t, f, handle, resolve);
      && status == NotFound
      && Answered(m, m', f, ts[..n], handle, resolve) && U64(m', f + 8 * n) == 0
      && Agree(m, m', f, f + 8 * n + 8)
  {
    hide AsksFor, AsksForSome, SymbolOf, ResolveThunks, ThunksFrom, ThunksAt, AllAnswered, AllFound, Answered,
      SlotsHold, SymbolsApart, U64;
    ThunksRead(m, t, f, ts);
    ThunksAsk(m, t, f, ts);
    SymbolRead(m, ts[n], symbol);
    AnsweredExactly(m, ResolveThunks(m, t, f, handle, resolve).0, f, ts[..n], handle, resolve);
    StopsAtThunk(m, t, f, ts, handle, resolve, n);
  }

  /**
   The table, read as the format says: it is built exactly when every library is loaded and everything its thunks ask
   for has an address. Then the libraries were loaded in the order of the table by the names that lie in the image,
   every slot holds the address of what the original thunk at its index asked for, and no other byte has changed.
  */
  lemma ImportedAsAsked(m: seq<byte>, pos: nat, ds: seq<Import>, handles: seq<nat>, resolve: Resolver)
    requires DescriptorsAt(m, pos, ds) && SlotsApart(m, pos, ds) && |handles| == |ds|
    ensures var (m', status, loads) := ImportFrom(m, pos, handles, resolve);
      && (status.Resolved? <==>
            forall k | 0 <= k < |ds| :: handles[k] != 0 && AllAnswered(m, ds[k].thunks, handles[k], resolve))
      && !status.OutOfImage?
      && (status.Resolved? ==>
            && |loads| == |ds|
            && (forall k | 0 <= k < |ds| :: Imported(m, m', pos + 20 * k, ds[k], loads[k], handles[k], resolve))
            && (forall p | 0 <= p < |m| && !InSlots(ds, p) :: m'[p] == m[p]))
  {
    hide AsksFor, ImportFrom, AllAnswered, AllFound, Answered, SlotsHold, SlotsApart, ThunksFrom, U32, InSlots;
    TableRead(m, pos, ds);
    ImportsResolve(m, pos, ds, handles, resolve);
    var m' := ImportFrom(m, pos, handles, resolve).0;
    forall k | 0 <= k < |ds|
      ensures AllAnswered(m, ds[k].thunks, handles[k], resolve) <==> AllFound(m, ds[k].thunks, handles[k], resolve)
      ensures SlotsHold(m, m', ds[k].slots, ds[k].thunks, handles[k], resolve) ==>
        Answered(m, m', ds[k].slots, ds[k].thunks, handles[k], resolve)
    {
      assert DescriptorAt(m, pos + 20 * k, ds[k]);
      ThunksAsk(m, ds[k].lookup, ds[k].slots, ds[k].thunks);
      AnsweredExactly(m, m', ds[k].slots, ds[k].thunks, handles[k], resolve);
    }
  }

  /**
   Descriptor k is the first whose library is not loaded or whose thunks ask for something without an address: the
   import ends there, and the libraries up to k have been asked for by their names, in order, and no others.
  */
  lemma StopsAsAsked(m: seq<byte>, pos: nat, ds: seq<Import>, handles: seq<nat>, resolve: Resolver, k: nat)
    requires DescriptorsAt(m, pos, ds) && SlotsApart(m, pos, ds) && |handles| == |ds| && k < |ds|
    requires forall j | 0 <= j < k :: handles[j] != 0 && AllAnswered(m, ds[j].thunks, handles[j], resolve)
    requires handles[k] == 0 || !AllAnswered(m, ds[k].thunks, handles[k], resolve)
    ensures var (m', status, loads) := ImportFrom(m, pos, handles, resolve);
      && status == (if handles[k] == 0 then NotLoaded else NotFound)
      && |loads| == k + 1
      && forall j | 0 <= j <= k :: AskedLibrary(m, pos + 20 * j, loads[j], handles[j])
  {
    hide AsksFor, ImportFrom, AllAnswered, AllFound, SlotsApart, ThunksFrom, U32, StringAt, SlotsHold, Answered;
    TableRead(m, pos, ds);
    forall j | 0 <= j < |ds|
      ensures AllAnswered(m, ds[j].thunks, handles[j], resolve) <==> AllFound(m, ds[j].thunks, handles[j], resolve)
      ensures AskedLibrary(m, pos + 20 * j, Load(ds[j].name, handles[j]), handles[j])
    {
      assert DescriptorAt(m, pos + 20 * j, ds[j]);
      ThunksAsk(m, ds[j].lookup, ds[j].slots, ds[j].thunks);
      AnsweredExactly(m, m, ds[j].slots, ds[j].thunks, handles[j], resolve);
    }
    StopsAtLibrary(m, pos, ds, handles, resolve, k);
  }
}
