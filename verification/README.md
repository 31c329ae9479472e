# Verification of the loader, the notification registry, the UDP tables, the checksum and the route choice

This project models five parts of the repository in Dafny and proves what they guarantee.

**The in-memory PE loader (`bin/memmod`, 64-bit build).** An image is a byte array that starts at the module's base,
so an RVA is an offset. The loader reads its headers from the bytes of the file, and from the bytes of the image once
they have been copied there, as the code does; section copying, relocation, import resolution and finalization change
that array in place, headers included. They are proved equal to functions on byte sequences, and the theorems are about
those functions.

- `Numbers`, `Words`, `Bytes`: remainders, bitwise operations on machine words, little-endian fields.
- `Relocation` (walk and fixups), `RelocationMeaning` (what a walk does site by site), `RelocationAlgebra` (relocating
  twice, and back), `ThumbFixup` (MOVW/MOVT pairs, encodings T3 and T1 of section A8.8 of the ARMv7-A manual),
  `ThumbMasks` (the masks and shifts of the source select the fields of the model).
- `PeHeaders` (the header fields by their offsets), `Sections` (layout check and copying), `Finalize` (grouping and
  page actions), `PageGroups` (what the groups guarantee).
- `Imports`, `ImportMeaning` (descriptors, thunks, slots) and `ImportBytes` (what the bytes of a table ask for).
- `Ledger` and `Loader` (reservations, blocked blocks, library handles, `LoadLibrary`, `Free`), `MappedHeaders` (how
  the headers in the image fare), `LoadedImage` (what a loaded module contains, across all stages).
- `SampleFiles`, `LoaderLimits` and `PageLimits`: concrete files, byte for byte, for which a guarantee of the loader ends,
  and exactly when it holds.
- `Os`: the operating system as an object whose outcomes are arbitrary. Assumed of it: a new reservation is aligned to
  64 KiB, lies below 2^47, and is disjoint from every live one; committing succeeds only inside a live reservation;
  handles are not zero; symbols resolve to the same address whenever they are asked for. It lists what it has refused,
  so that the loader can be held to fail only for a reason.

**The change-notification registry (`winipcfg/*_change_handler.go`).** The three files differ in names only;
`Registry` models them once, as a machine whose steps are the points at which threads can interleave. The class
`Shared` has the code of the sections that run under the mutexes, proved to be sequences of machine steps.

**The UDP tables (`handler/remoteSocketHandler/udp`).** `FlowTable` models `attachConnect` and `run`, `Forwarder`
models `handle`, both as such machines. `FlowHistory` and `ForwarderHistory` say what the steps of a run have
to have been for each state it reaches. `FlowTableLimits` has the runs in which a flow table loses sockets and
payloads, and exactly when it does.

**Two computations.** `Checksum` (`tool/tool.go`) against the definition in section 1 of RFC 1071, and `Routes`
(`model/route.go`, `countBits` in `model/route_windows.go`).

## What the proofs show about the code

- HIGH fixups lose the carry of the low half: relocation is additive exactly without it (`RelocationIsAdditive`,
  `RelocationIsUndone`). Where a Thumb fixup is listed, a relocation can be taken back only if it leaves the low 32 bits
  alone (`CanBeTakenBack`).
- A section may be mapped over the headers. For sections that keep off the section headers, the image is relocated by
  its distance from the preferred base exactly when no section puts other bytes where the base is stored
  (`RelocatedByDistanceExactly`). A file that maps a prefix of itself over the base passes every check, is not relocated
  wherever it lies, and is reported as relocated (`PrefixLosesTheBase`); if the prefix covers the section header too, a
  header field is stored into the bytes of the section (`PrefixLosesBytes`). What a loaded image contains is therefore
  stated for sections, fixups and import slots that keep off the header bytes that are read again (`KeepsOffHeaders`).
- With SectionAlignment 0 the layout check accepts everything (`LayoutBoundsCopying`). Nothing follows from it only
  because the aligned image size is then 0 and cannot be reserved (`NotEmpty`).
- The file-size guard of `copySections` adds two 32-bit fields and can wrap around (`GuardIsExact`); a file that passes
  every check is read past its end (`GuardLetsReadLeave`). The size check of the NT headers wraps around as well
  (`OffsetWrapsExactly`, reached by `BackwardLeavesTheFile`).
- The address of a section with raw data that does not start on a page is remembered as the start of its page
  (`AddressesAreRecovered`).
- Decommitting never takes a page that has to stay, in any completed load whose sections start on pages and ascend,
  exactly when the section alignment, an even power of two, is a multiple of the page size (`DecommitSafety`). For every
  smaller one there is a file whose load completes and loses such a page (`SharingLosesPages`).
- A group of sections that asks for writing but not for reading is readable as well, because Windows reads what it lets
  be written (`ProtectionGrants`).
- The comment on the Register functions says that a callback that is already registered is silently accepted; the code
  makes a new object on every call, so this cannot happen. The model follows the code.
- `attachConnect` drops a payload exactly when its first lookup finds no entry and the second finds one
  (`DroppedExactly`, reached by `DroppingIsReached`).
- The caller leaves `identify` empty, so that `run` never removes an entry (`EntryStays`), and after its socket is closed
  every later payload of the flow is written to the closed socket (`ClosedFlowLosesPayloads`, reached by
  `LosingIsReached`). `SendableExactlyUnlessDead` says when a later payload can still be sent, for every key that only
  calls of its own flow have in that field.
- When the dial of `Forwarder.handle` fails, packets that already wait for it wait forever
  (`FailedDialStrandsWaiters`, reached by `StrandingIsReached`). `ReleasableExactlyUnlessFailed` says exactly which
  waiting packets can still go on.
- `Forwarder.handle` reads the first byte of the IPv4 form of its destination, and panics when there is none
  (`PanicsExactlyWithoutIpv4`, reached by `PanicIsReached`).
- The checksum is right up to 131074 bytes and for no longer length (`CorrectUpToLimit`); beyond that it is right
  exactly for the data `AgreesExactly` describes. The TCP variant is wrong on odd lengths unless the last byte is zero
  (`TcpAgreement`).
- The route with the longest prefix is not always chosen: `LongerPrefixLoses` is an example, and `LongestPrefixExactly`
  says when it is.

## Model

| member | source | states |
|---|---|---|
| Relocation.FixUpInPlace | bin/memmod/memmod_windows.go:262-313 | changes the image by exactly the fixup of one entry, for every kind, including the faults and the unsupported kinds |
| Relocation.FixUpThumbInPlace | bin/memmod/memmod_windows.go:279-308 | changes the image by the MOVW/MOVT fixup and reports which instruction or which value stopped it |
| Relocation.RelocateBlock | bin/memmod/memmod_windows.go:252-314 | applies the entries of one block in order and stops at the first that fails |
| Relocation.PerformBaseRelocation | bin/memmod/memmod_windows.go:242-319 | patches the image as the walk over the blocks does, and ends on every memory, also when a fixup rewrites the table it is reading |
| RelocationMeaning.FixUpIsLocal | bin/memmod/memmod_windows.go:262-313 | a fixup depends on the bytes of its own site and changes no other |
| RelocationMeaning.SitesAreIndependent | bin/memmod/memmod_windows.go:252-317 | disjoint sites are patched independently of each other and of their order; all of them succeed exactly when each does on its own |
| RelocationMeaning.PatchedIsUnique | bin/memmod/memmod_windows.go:252-317 | the sites and their patches determine the whole image |
| RelocationMeaning.WalkIsList | bin/memmod/memmod_windows.go:248-317 | the walk over a zero-terminated table in memory applies the list of fixups the table spells out, as long as none touches the table |
| RelocationMeaning.BlockIsThere | bin/memmod/memmod_windows.go:248-317 | the blocks of a table lie end to end, each with its address and its size in its first 8 bytes |
| RelocationMeaning.EntriesAreFixups | bin/memmod/memmod_windows.go:252-260 | every 16-bit word behind those 8 bytes is a fixup of the table: its upper 4 bits are the kind, its lower 12 bits are added to the address of the block |
| RelocationMeaning.FixupsAreEntries | bin/memmod/memmod_windows.go:252-260 | every fixup of the table is such a word |
| RelocationMeaning.RelocationPatchesSites | bin/memmod/memmod_windows.go:242-319 | relocation succeeds exactly when every listed site can be patched; then each site is patched and every other byte, the table included, is kept |
| RelocationMeaning.RelocationStops | bin/memmod/memmod_windows.go:283-312 | the first site that cannot be patched ends the relocation with its error; the sites up to it have been patched, and every other byte is kept |
| RelocationMeaning.BadBlockFaults | bin/memmod/memmod_windows.go:252-254 | a block whose size is below 8, or whose header is not in the image, ends the process and changes nothing |
| RelocationMeaning.SizeIsReadAgain | bin/memmod/memmod_windows.go:316-316 | a fixup that lands on the size of its own block moves the next block by delta: the size is read again after the block |
| RelocationMeaning.FixUpExactly | bin/memmod/memmod_windows.go:262-313 | the kinds by their numbers: 10 adds delta to 8 bytes modulo 2^64, 3 to 4 bytes modulo 2^32, 2 to 2 bytes modulo 2^16, 1 adds delta / 2^16 to 2 bytes, 0 does nothing; a field outside the image faults, and any other kind but 7 is an error |
| RelocationMeaning.RelocationAddsDelta | bin/memmod/memmod_windows.go:267-277 | every site a table lists with kind 1, 2, 3 or 10 holds, in the relocated image, its old value plus delta or its upper part, modulo the 2, 4 or 8 bytes of the field |
| RelocationMeaning.AddressesFollowTheImage | bin/memmod/memmod_windows.go:273-277 | a site listed with kind 10 whose 8 bytes, or with kind 3 whose 4 bytes, held oldBase + rva holds newBase + rva |
| Bytes.LittleEndian | bin/memmod/memmod_windows.go:267-277 | fields of 2, 4 and 8 bytes lie in memory with their low byte first |
| RelocationAlgebra.RelocationIsAdditive | bin/memmod/memmod_windows.go:267-308 | relocating by a and then by b, if both succeed, equals relocating by a + b exactly when there is no HIGH site or the low halves do not carry; Thumb sites included |
| RelocationAlgebra.RelocatingByZero | bin/memmod/memmod_windows.go:252-314 | relocating by zero changes nothing, also when it fails |
| RelocationAlgebra.RelocationIsUndone | bin/memmod/memmod_windows.go:267-308 | relocating by delta and back, if both succeed, restores every byte exactly when there is no HIGH site or delta is a multiple of 64 KiB |
| RelocationAlgebra.CanBeTakenBack | bin/memmod/memmod_windows.go:279-308 | relocating back succeeds exactly when the table has no Thumb site or delta leaves the low 32 bits alone |
| ThumbMasks.OpcodeTests | bin/memmod/memmod_windows.go:283-296 | the masked comparisons of the source accept exactly the MOVW and MOVT opcodes of the model |
| ThumbMasks.ImmediateIsGathered | bin/memmod/memmod_windows.go:281-295 | the four shifted and masked parts add up to the 16-bit immediate of the model |
| ThumbMasks.ImmediateIsSpread | bin/memmod/memmod_windows.go:288-307 | the masked word plus the four shifted and masked parts is the word with its immediate replaced |
| ThumbFixup.ImmediateOf | bin/memmod/memmod_windows.go:281-291 | storing an immediate in MOVW or MOVT and decoding it again gives the low 16 bits and keeps all other bits |
| ThumbFixup.CarryChain | bin/memmod/memmod_windows.go:286-301 | adding by halves with the carry into MOVT is adding 32-bit values, and it fits exactly when the sum does |
| ThumbFixup.ThumbFixupAdds | bin/memmod/memmod_windows.go:279-308 | the fixup succeeds exactly when the first word is MOVW and, if anything reaches the second, that is MOVT and value + delta is below 2^32; then the pair loads that sum and keeps opcodes and registers, and a second word nothing reaches is left alone |
| ThumbFixup.RelocationAddsToPairs | bin/memmod/memmod_windows.go:279-308 | the same for every pair a relocation table lists, in the relocated image |
| Sections.CheckLayout | bin/memmod/memmod_windows.go:478-499 | reads the section headers in the file and accepts exactly the layouts whose image size and last section end align to the same value, with an even alignment |
| Sections.LayoutExactly | bin/memmod/memmod_windows.go:478-499 | for the largest end of a section, with one alignment for a section without raw data: accepted exactly when the alignment is even and the image size and that end align to the same value |
| Sections.LayoutBoundsCopying | bin/memmod/memmod_windows.go:478-499 | an accepted layout keeps every write of copySections inside the aligned image size exactly when the alignment is not zero or no section has raw data |
| Words.AlignUpCovers | bin/memmod/memmod_windows.go:688-690 | alignUp loses nothing for any non-zero alignment, power of two or not, unless the sum wraps around |
| Words.AlignDownIs | bin/memmod/memmod_windows.go:684-686 | for a power of two, alignDown drops the remainder |
| Words.AlignUpIs | bin/memmod/memmod_windows.go:688-690 | for a power of two, alignUp gives the least multiple that is not below the value |
| Words.AndIsBitwise | bin/memmod/memmod_windows.go:684-686 | the conjunction the model computes on numbers is the bitwise one |
| Words.OrIsBitwise | bin/memmod/memmod_windows.go:194-198 | so is the disjunction |
| Words.AlignUpZero | bin/memmod/memmod_windows.go:688-690 | alignUp of zero is zero for every alignment |
| Sections.CopySection | bin/memmod/memmod_windows.go:53-97 | copies or zeroes one section and stores its address in its header, in the order of the source, so that a section over its own header keeps or loses what was stored; reports what stopped it, which memory was refused, and leaves the image as it was |
| Sections.CopySections | bin/memmod/memmod_windows.go:50-101 | copies the sections its headers in the image list, in order, headers read when their turn comes; when the system refuses memory, it is the memory of the next section, and exactly the sections before that one have been copied |
| Sections.AddressIsStored | bin/memmod/memmod_windows.go:82-97 | with raw data, the header holds the start of the page of the section modulo 2^32 afterwards, whatever the section covers |
| Sections.AddressIsCleared | bin/memmod/memmod_windows.go:53-76 | without raw data, a section over its own header clears the address stored there |
| Sections.SectionsHoldTheirContents | bin/memmod/memmod_windows.go:50-101 | disjoint sections are copied exactly when each passes the guard; then each holds its file bytes or zeros, all other bytes are kept, and each header, kept apart from the image, remembers its place |
| Sections.LastWriterWins | bin/memmod/memmod_windows.go:50-101 | whether sections overlap or not, a byte of the image comes from the last section that is written to it, and without one stays as it was |
| Sections.StoreInTable | bin/memmod/syscall_windows.go:148-175 | storing an address or a size in one section header changes that field of that header and nothing else |
| PeHeaders.HeaderFields | bin/memmod/syscall_windows.go:42-117 | the fields of the file and optional headers by their offsets in bytes, the two directories and the DLL flag included |
| PeHeaders.SectionFields | bin/memmod/syscall_windows.go:119-159 | the section headers are the 40-byte records behind the optional header, their fields at 8, 12, 16, 20 and 36 |
| Sections.CopyMirrors | bin/memmod/memmod_windows.go:50-101 | sections that keep off the section headers are copied, with headers that lie in the image, exactly as with headers kept apart |
| Sections.GuardIsExact | bin/memmod/memmod_windows.go:78-80 | a section is copied exactly when it has no raw data or they end inside the file; the guard lets a read leave the file exactly when the 32-bit sum wraps around and the file length lies in the gap |
| Sections.LowHalfIs | bin/memmod/memmod_windows.go:70-70 | what the header remembers is the address modulo 2^32 |
| Finalize.FinalizeSection | bin/memmod/memmod_windows.go:125-165 | decommits, protects or skips one group of sections as its flags, its bounds and the section alignment in the image say; changes nothing when it fails |
| Finalize.Visit | bin/memmod/memmod_windows.go:180-184 | reads the address out of the union of a header in the image before it stores the size there |
| Finalize.FinalizeSections | bin/memmod/memmod_windows.go:176-220 | acts on the groups in order, on headers that lie in the image; when a protection fails, exactly the groups before it have been acted on and the image is as it was at that call |
| Finalize.PassesAreRuns | bin/memmod/memmod_windows.go:187-214 | for section headers behind the fields it reads, its calls are the groups of the sections as they were at the start, although it overwrites their headers on the way |
| Finalize.PassesActOnSections | bin/memmod/memmod_windows.go:176-220 | in that case it does to the pages what the sections call for, leaves its size in every header, and changes no other byte |
| Finalize.SizeIs | bin/memmod/memmod_windows.go:104-116 | the size of a section is its raw size, or by the flag 0x40 the initialized size, or by 0x80 the uninitialized size of the headers, or zero |
| Finalize.ProtectionGrants | bin/memmod/memmod_windows.go:143-156 | the protection table grants execute, write and no-cache exactly as the flags ask, and reading exactly when the flags ask for reading or writing |
| PageLimits.ProtectionIs | bin/memmod/memmod_windows.go:143-156 | the eight protections by the top three flags, as numbers, and the flag against caching |
| PageGroups.ImageOffsetIs | bin/memmod/memmod_windows_64.go:16-18 | imageOffset is the image base rounded down to 4 GiB |
| PageGroups.AddressesAreRecovered | bin/memmod/memmod_windows.go:180-188 | for an image inside one 4 GiB block, the stored 32 bits and imageOffset give the section's address back: always without raw data, with raw data exactly when it starts on a page |
| PageGroups.CutsAreSeparations | bin/memmod/memmod_windows.go:190-192 | the test of the loop cuts exactly between neighbours of which no page is shared |
| PageGroups.FlagsMerge | bin/memmod/memmod_windows.go:194-198 | merging gives all flags of the members, with DISCARDABLE only if every member has it |
| PageGroups.RunsPartition | bin/memmod/memmod_windows.go:176-220 | the groups partition ascending sections in order, cut exactly between separate neighbours, span from the first start to the last end, and carry the flags of their members |
| PageGroups.RangesShareNoPage | bin/memmod/memmod_windows.go:190-211 | no two groups touch the same page of the section alignment |
| PageGroups.RangesGrantTheirRights | bin/memmod/memmod_windows.go:143-159 | a group that is not discardable is protected with exactly the rights some member asks for; reading comes with writing |
| PageLimits.GroupIsActedOn | bin/memmod/memmod_windows.go:125-165 | what is done with each group, from its first to its last byte: nothing if it is empty, decommitted if all members are discardable and it starts on a page and ends on one or ends the image, left alone if they are discardable otherwise, and protected in every other case |
| PageLimits.DecommitsExactly | bin/memmod/memmod_windows.go:125-139 | a group that is not empty is decommitted exactly when all its members are discardable, it starts on a page of the alignment, and it is the last or a multiple of the alignment long |
| PageGroups.DecommitsOwnPages | bin/memmod/memmod_windows.go:130-139 | for every power of two, no page of the section alignment has both a decommitted byte and a byte of a section that has to stay |
| PageGroups.SafeOnWholePages | bin/memmod/memmod_windows.go:130-139 | with an alignment of whole pages, decommitting a group hits no page of a section that has to stay, the unaligned tail of the last group included |
| PageGroups.UnsafeBelowPageSize | bin/memmod/memmod_windows.go:130-139 | with a smaller alignment, two neighbouring sections on a page, the second discardable, lose a page the first still needs |
| Imports.ResolveInPlace | bin/memmod/memmod_windows.go:342-357 | reads and overwrites thunks one by one until the zero thunk or the first symbol without an address |
| Imports.ImportLibrary | bin/memmod/memmod_windows.go:329-357 | loads one library, fills its slots, and frees it at once when a symbol has no address; a library that is not loaded has been refused by the system |
| Imports.BuildImportTable | bin/memmod/memmod_windows.go:321-361 | makes the load calls in table order, records the handles of completely resolved libraries only, and owns exactly the recorded ones |
| ImportMeaning.ThunksResolve | bin/memmod/memmod_windows.go:342-357 | the thunks of a library are resolved exactly when each names a symbol with an address; then each slot holds the address for the original thunk at its index, also when thunks are overwritten while they are read |
| ImportMeaning.ImportsResolve | bin/memmod/memmod_windows.go:321-361 | the table is built exactly when every library loads and every thunk resolves; then all slots of all descriptors hold the right addresses, the libraries were loaded in order, and no other byte changed |
| ImportMeaning.OneLoadEach | bin/memmod/memmod_windows.go:328-359 | a table that is built has made one load call for each descriptor |
| ImportBytes.StringRead | bin/memmod/memmod_windows.go:329-347 | a name is read as s exactly when the bytes of s, none of them zero, lie there in order with a zero behind them |
| ImportBytes.NoString | bin/memmod/memmod_windows.go:329-347 | reading a name leaves the image exactly when no zero lies between it and the end |
| ImportBytes.SymbolRead | bin/memmod/memmod_windows.go:342-350 | a thunk of 2^63 or more asks for the ordinal in its low 16 bits, any other for the name two bytes behind the offset it holds |
| ImportBytes.TableRead | bin/memmod/memmod_windows.go:321-341 | the descriptors are the 20-byte records up to the first without a name: library name at 12, thunks at the field at 0 or, if that is zero, at 16, slots of 8 bytes at the field at 16 |
| ImportBytes.ThunksAnswered | bin/memmod/memmod_windows.go:342-357 | on the bytes of the thunks: resolved exactly when everything they ask for has an address, and then every slot holds the address of what the original thunk at its index asked for |
| ImportBytes.ThunkUnanswered | bin/memmod/memmod_windows.go:342-357 | the first thunk whose symbol has no address ends the library: its slot is zero, the slots before it hold their addresses, and no other byte changes |
| ImportBytes.ImportedAsAsked | bin/memmod/memmod_windows.go:321-361 | the same for the table: libraries are loaded in order by the names that lie in the image, slots hold the addresses of what was asked for, and no other byte changes |
| ImportBytes.StopsAsAsked | bin/memmod/memmod_windows.go:328-357 | the first library that is not loaded, or whose thunks ask for something without an address, ends the import; exactly the libraries up to it have been asked for, in order |
| Ledger.CrossersOverlap | bin/memmod/memmod_windows_64.go:21-21 | two blocks of one size that cross the same 4 GiB boundary overlap |
| Ledger.CrossesExactly | bin/memmod/memmod_windows_64.go:21-21 | the shifted comparison holds exactly when a multiple of 4 GiB lies behind the first byte of a block, its end included |
| Ledger.RejectedAreFew | bin/memmod/memmod_windows_64.go:20-36 | the rejected blocks cover different boundaries, so there are at most 32768 of them |
| Loader.Module.Check4GBBoundaries | bin/memmod/memmod_windows_64.go:20-36 | ends; on success the image crosses no boundary, and keeps its base unless that crosses one; the list holds exactly the rejected blocks, each once and still reserved; it fails only when the system refuses a block of that size |
| Loader.FreeList | bin/memmod/memmod_windows.go:24-28 | gives every block of the list back exactly once |
| Loader.Module.Reserve | bin/memmod/memmod_windows.go:508-531 | reserves at the preferred base, or anywhere when that is refused, and owns exactly what it added to the live reservations; fails only when the system has refused a block anywhere |
| Loader.Module.MapSections | bin/memmod/memmod_windows.go:533-557 | copies the headers into new memory, stores the base there, and copies the sections; refuses only when the system does or the copying of the file cannot succeed at that base |
| Loader.Module.Relocate | bin/memmod/memmod_windows.go:559-569 | relocates by the distance unless the headers in the image give the preferred base; its outcome, the recorded flag and the image are those of the relocation, for every outcome |
| Loader.Module.Import | bin/memmod/memmod_windows.go:571-576 | imports what the headers in the image ask for and records exactly the handles of the resolved libraries; refuses only when a library or a symbol was refused |
| Loader.Module.Fill | bin/memmod/memmod_windows.go:533-576 | builds the image as the composition of copying, relocation and import, each on the headers the image has by then; on failure owns exactly the recorded handles, and the system has refused something or no such image can be built |
| Loader.Module.Finish | bin/memmod/memmod_windows.go:578-614 | finalizes the sections the headers in the image list, performs the page actions of all groups, and attaches a library once; on failure the system has refused something and nothing is left attached; panics only without a section header in the image or on a division by zero |
| Loader.LoadLibrary | bin/memmod/memmod_windows.go:458-620 | takes the bytes of a file; a refused load leaves reservations and libraries as they were, and the system has refused something or the file cannot be loaded; the process ends only when a step leaves the file or the image; a successful load owns exactly what it took, in one 4 GiB block, with the image built from the file and finalized, and nothing refused but the preferred base |
| Loader.FoundExactly | bin/memmod/memmod_windows.go:458-477 | on the bytes: a file is one for the machine with NT headers at nt exactly when it starts with MZ, the offset at 60 is nt and not negative, 264 bytes follow, and PE and the machine lie there |
| Loader.CheckedHeaders | bin/memmod/memmod_windows.go:458-499 | goes on exactly when signatures, machine and layout fit, and leaves the file exactly when it is empty, an offset below zero wraps around, or section headers lie outside; everything else is refused |
| Loader.Module.Free | bin/memmod/memmod_windows.go:623-644 | gives back image, blocked blocks and handles exactly once, detaches once if attached, while the image is still there, and then owns nothing |
| Loader.FreeTwice | bin/memmod/memmod_windows.go:623-644 | a second Free gives nothing back and does not detach again |
| Loader.LoadThenFree | bin/memmod/memmod_windows.go:458-644 | a load followed by Free leaves reservations and libraries as they were |
| Loader.NotEmpty | bin/memmod/memmod_windows.go:178-180 | an image that could be reserved has a section to start from and a non-zero alignment to divide by |
| MappedHeaders.BaseStoredHolds | bin/memmod/memmod_windows.go:536-550 | what is read again of the headers in the image is what the file has there, with the base in place of the preferred one |
| MappedHeaders.MappedApart | bin/memmod/memmod_windows.go:546-557 | when no section is written over the section headers, they hold the places of the sections, and the rest of the image is as with headers kept apart |
| MappedHeaders.MappedAsCopied | bin/memmod/memmod_windows.go:546-557 | when no section is written over a header byte that is read again, base and fields are held as well |
| LoadedImage.LoadSucceeded | bin/memmod/memmod_windows.go:458-620 | what LoadLibrary reports as loaded is a load in the sense of the results below, in one 4 GiB block |
| LoadedImage.RelocationStage | bin/memmod/memmod_windows.go:559-569 | the relocated image is the copied image with its fixups patched, each once, by its distance from the preferred base, and the header bytes that are read again are kept |
| LoadedImage.ImportStage | bin/memmod/memmod_windows.go:571-576 | the image before finalization is the relocated image with its slots bound, each once, after one load per descriptor, and the header bytes that are read again are kept |
| LoadedImage.LoadedAsAsked | bin/memmod/memmod_windows.go:571-583 | in a loaded module, every slot holds the address of what the thunk at its index asks for, of the library that was loaded by the name in the image |
| LoadedImage.FinalStage | bin/memmod/memmod_windows.go:578-583 | finalization performs the page actions of the sections of the file at their places, leaves their sizes in the section headers, and keeps every byte off them |
| LoadedImage.SectionBytesSurvive | bin/memmod/memmod_windows.go:553-576 | when nothing is written over header bytes that are read again, a section byte outside fixups and slots is in the loaded module what it is in the file, or zero |
| LoadedImage.EveryByteIsKnown | bin/memmod/memmod_windows.go:546-583 | every byte off fixups, slots and header bytes that are read again comes from the last section written to it, and without one from the headers of the file, or is zero behind them; sections may overlap |
| LoadedImage.PointersFollowTheBase | bin/memmod/memmod_windows.go:559-576 | when nothing is written over header bytes that are read again, an address of 8 or 4 bytes the file holds for the preferred base, at a site listed with kind 10 or 3, is an address for the actual base in the loaded module |
| LoadedImage.FinalizesTrueAddresses | bin/memmod/memmod_windows.go:176-188 | boundary check, layout check and truncation together: finalizeSections works on the true addresses and sizes of all sections |
| LoadedImage.ActsOnTrueExtents | bin/memmod/memmod_windows.go:578-583 | the page actions of a loaded module are those of the groups of its sections at their true addresses, for every alignment |
| LoadedImage.LoadedPagesAreSafe | bin/memmod/memmod_windows.go:578-583 | the page actions of a loaded module follow groups that partition its sections at their true addresses and never take a page that has to stay |
| SampleFiles.HeadersRead | bin/memmod/memmod_windows.go:458-477 | a file written field by field passes the signature checks and has the headers that were put into it |
| LoaderLimits.RelocatedByDistanceExactly | bin/memmod/memmod_windows.go:546-561 | for sections that keep off the section headers: the image is relocated by its distance from the preferred base exactly when the last section written to each byte of the base in the headers puts the same byte there |
| LoaderLimits.PrefixLosesTheBase | bin/memmod/memmod_windows.go:546-569 | every file of the family that maps its first 120 bytes or more to the start of the image passes all checks, is not relocated at any base, and is reported as relocated |
| LoaderLimits.PrefixSurvives | bin/memmod/memmod_windows.go:546-561 | when such a section ends before the section headers, the exact condition applies and holds at the preferred base only |
| LoaderLimits.PrefixLosesBytes | bin/memmod/memmod_windows.go:91-97 | when it covers its own section header, the address stored there replaces bytes of the section |
| LoaderLimits.GuardLetsReadLeave | bin/memmod/memmod_windows.go:78-95 | a file that passes every check and the size guard of its section, and is read past its end at every base |
| LoaderLimits.OffsetWrapsExactly | bin/memmod/memmod_windows.go:468-471 | the NT headers are looked for outside the file exactly when their offset lies less than their size below zero and the file is long enough for what is left of the sum |
| LoaderLimits.BackwardLeavesTheFile | bin/memmod/memmod_windows.go:468-471 | a file whose NT headers are looked for in front of it |
| PageLimits.LoadsInPlace | bin/memmod/memmod_windows.go:458-620 | a file that keeps off its headers, imports nothing and is copied to its preferred base completes its load, without a fixup or a slot |
| PageLimits.KeepsExactly | bin/memmod/memmod_windows.go:125-139 | no page is lost to the page actions of a load exactly when no decommitted group shares a page with a section that has to stay |
| PageLimits.SharingLosesPages | bin/memmod/memmod_windows.go:125-139 | for each even power of two below the page size, a file whose load completes and gives back a page that holds a byte of a section that has to stay |
| PageLimits.DecommitSafety | bin/memmod/memmod_windows.go:125-139 | for even powers of two: no completed load whose sections start on pages and ascend loses a page that has to stay exactly when the section alignment is a multiple of the page size |
| Registry.Shared.Register | winipcfg/interface_change_handler.go:36-51 | the section under both mutexes is a sequence of machine steps; it adds the callback and subscribes if there was no subscription, or leaves callbacks and subscription as they were when notify fails |
| Registry.Shared.Delete | winipcfg/interface_change_handler.go:58-61 | removes the callback and nothing else, and decides to cancel exactly when none is left and there is a subscription |
| Registry.Shared.Cancel | winipcfg/interface_change_handler.go:63-73 | after the wait: cancels and clears the handle if that was decided, or keeps it when the system refuses, and otherwise changes nothing |
| Registry.Shared.Dispatch | winipcfg/interface_change_handler.go:78-86 | counts one more invocation of every registered callback and of no other, and changes nothing else |
| Registry.InvHolds | winipcfg/interface_change_handler.go:23-88 | what every step of every run keeps: counters count outstanding invocations, dispatches visit registered callbacks, handle and callbacks agree |
| Registry.Quiescence | winipcfg/interface_change_handler.go:54-88 | once Unregister has returned, with or without an error, no invocation of the callback is running, waiting to run or started later in the run |
| Registry.SubscriptionConserved | winipcfg/interface_change_handler.go:30-74 | with the add/remove mutex free, successful notify calls minus successful cancel calls is one if the handle is set and zero if not, and callbacks imply a handle |
| Registry.OneSubscription | winipcfg/interface_change_handler.go:30-74 | there is never more than one subscription, nor one cancelled twice |
| Registry.RegisteredExactly | winipcfg/interface_change_handler.go:36-60 | in every state, the callbacks are those whose Register has returned and whose Unregister has not deleted them, and one that is being added |
| Registry.LastOneUnsubscribes | winipcfg/interface_change_handler.go:58-74 | an Unregister that leaves no callback ends without a subscription, unless the system refuses to cancel it |
| Registry.SubscribedExactlyWhileNeeded | winipcfg/interface_change_handler.go:36-74 | in every run without such a refusal, with the add/remove mutex free: there is a subscription exactly while there is a callback |
| Registry.DispatchInvokesEachOnce | winipcfg/interface_change_handler.go:76-88 | between its start and its end, whatever other threads do, a dispatch counts one invocation of each callback registered at its start and none of any other |
| Registry.SomeThreadCanMove | winipcfg/interface_change_handler.go:30-88 | no deadlock: while a call or a dispatch holds a mutex, some thread under way can take a step |
| Registry.WaitOnlyShrinks | winipcfg/interface_change_handler.go:63-63 | while Unregister waits, the counter it waits for is never increased |
| Registry.WaiterProgress | winipcfg/interface_change_handler.go:63-85 | in every reached state with a waiting Unregister, its wait is over or an invocation it waits for can take a step that leaves less to wait for |
| Registry.WorkOnlyShrinks | winipcfg/interface_change_handler.go:63-85 | no step of any thread leaves a waiting Unregister more to wait for |
| Registry.CountersStayPositive | winipcfg/interface_change_handler.go:81-83 | an invocation that finishes has been counted, so no counter drops below zero |
| FlowTable.InvHolds | handler/remoteSocketHandler/udp/forwardState.go:45-101 | what every step keeps, for all flows: lock and write locks have one holder, entries belong to their key and have dialled, open sockets have a reader |
| FlowTable.ListedHolds | handler/remoteSocketHandler/udp/forwardState.go:56-96 | when no connection can delete the entry of another flow with more calls, every live connection is the entry of its key |
| FlowTable.OneSocketPerFlow | handler/remoteSocketHandler/udp/forwardState.go:45-101 | in every interleaving at most one socket is open for each key |
| FlowTable.EmptyOrKeyIsHarmless | handler/remoteSocketHandler/udp/forwardState.go:20-29 | an identify field that is empty or the key meets that condition |
| FlowTable.EntriesHaveSockets | handler/remoteSocketHandler/udp/forwardState.go:56-67 | every entry belongs to its key and has dialled, for all flows |
| FlowTable.WritesStayInTheirFlow | handler/remoteSocketHandler/udp/forwardState.go:69-81 | a payload goes to a connection of its own flow, and writes to one connection do not overlap, for all flows |
| FlowTable.PayloadWrittenOnce | handler/remoteSocketHandler/udp/forwardState.go:52-84 | a payload is written at most once, and not at all when the dial fails or the second lookup finds an entry |
| FlowTable.EntryStays | handler/remoteSocketHandler/udp/forwardState.go:87-96 | an entry whose key is nobody's identify field is never removed, also after its socket is closed |
| FlowTable.SomeCallCanMove | handler/remoteSocketHandler/udp/forwardState.go:45-84 | no deadlock between the lock and the write locks, for all flows |
| FlowHistory.EntriesExactly | handler/remoteSocketHandler/udp/forwardState.go:56-96 | in every state of every run, the entry of a key is the connection stored last, if nothing has deleted it since |
| FlowHistory.OpenExactly | handler/remoteSocketHandler/udp/forwardState.go:56-101 | a socket is open exactly from its dial until its reader closes it |
| FlowHistory.SentExactly | handler/remoteSocketHandler/udp/forwardState.go:69-84 | a payload was sent over a connection exactly when its call wrote to it, as its own or the one its first lookup found, while its socket was open |
| FlowHistory.LostExactly | handler/remoteSocketHandler/udp/forwardState.go:69-84 | and lost exactly when it did so after the socket was closed |
| FlowHistory.FailedExactly | handler/remoteSocketHandler/udp/forwardState.go:56-62 | a call ends without a connection exactly when its dial has failed |
| FlowTableLimits.OneSocketExactlyWhenHarmless | handler/remoteSocketHandler/udp/forwardState.go:87-96 | all runs keep one socket per key exactly when no identify field is the key of another flow that has more than one call |
| FlowTableLimits.DroppedExactly | handler/remoteSocketHandler/udp/forwardState.go:52-76 | a payload is dropped exactly when the first lookup of its call finds no entry and the second finds one |
| FlowTableLimits.DroppingIsReached | handler/remoteSocketHandler/udp/forwardState.go:52-76 | a run in which a payload is dropped, for any two calls of one flow |
| FlowTableLimits.ClosedFlowLosesPayloads | handler/remoteSocketHandler/udp/forwardState.go:77-96 | once the socket of an entry is closed whose key is nobody's identify field, every later call of the flow writes to the closed socket |
| FlowTableLimits.LosingIsReached | handler/remoteSocketHandler/udp/forwardState.go:77-96 | a run in which a payload is lost that way, for any two calls of one flow |
| FlowTableLimits.SendableExactlyUnlessDead | handler/remoteSocketHandler/udp/forwardState.go:45-101 | for a key that only calls of its own flow have in their identify field: in every reached state the payload of a later call can still be sent exactly when the entry has an open socket or some reader has still to delete it |
| Forwarder.InvHolds | handler/remoteSocketHandler/udp/forwardUtil.go:113-182 | what every step keeps: openers own their entries, closed channels belong to published sockets, waiters wait for an opener of their client |
| Forwarder.OneOpener | handler/remoteSocketHandler/udp/forwardUtil.go:114-123 | each client has at most one opener or reader, and its entry is the one in the table |
| Forwarder.RemovalsAreOwn | handler/remoteSocketHandler/udp/forwardUtil.go:135-164 | every removal deletes the entry the removing call made |
| ForwarderHistory.EntriesExactly | handler/remoteSocketHandler/udp/forwardUtil.go:114-164 | in every state, the entry of a client is the one its packet made, if nothing has deleted it since |
| ForwarderHistory.PublishedExactly | handler/remoteSocketHandler/udp/forwardUtil.go:126-144 | an entry has its socket, and its channel is closed, exactly when the packet that made it has published |
| ForwarderHistory.PacketsExactly | handler/remoteSocketHandler/udp/forwardUtil.go:114-186 | a packet is sent over the socket of an entry exactly when it found that entry and has gone on; until then it follows that entry |
| ForwarderHistory.OpenersExactly | handler/remoteSocketHandler/udp/forwardUtil.go:126-176 | a packet that makes an entry gives up exactly when its dial fails, is otherwise sent first, and reads until a read fails |
| Forwarder.NeverPanics | handler/remoteSocketHandler/udp/forwardUtil.go:126-144 | with a destination that has an IPv4 form, no socket is stored in a missing entry, no channel is closed twice, and no handler panics in any other way |
| Forwarder.PanicsExactlyWithoutIpv4 | handler/remoteSocketHandler/udp/forwardUtil.go:126-144 | a handler panics exactly when it has made an entry and the destination has no IPv4 form |
| Forwarder.PanicIsReached | handler/remoteSocketHandler/udp/forwardUtil.go:126-144 | a run in which the first packet panics, for every destination without an IPv4 form |
| Forwarder.NeverSocketless | handler/remoteSocketHandler/udp/forwardUtil.go:179-182 | no packet is sent without a socket, whatever the destination |
| Forwarder.ClosedAtMostOnce | handler/remoteSocketHandler/udp/forwardUtil.go:140-144 | every channel is closed at most once |
| Forwarder.PassedHasSocket | handler/remoteSocketHandler/udp/forwardUtil.go:179-182 | a packet past the channel has the socket of a connection of its own client |
| Forwarder.WaitersDependOnTheDial | handler/remoteSocketHandler/udp/forwardUtil.go:179-182 | while the process runs, a waiting packet can go on exactly when its opener has published a socket |
| Forwarder.FailedDialStrandsWaiters | handler/remoteSocketHandler/udp/forwardUtil.go:134-138 | a packet that waits for an opener whose dial failed waits for the rest of the run |
| Forwarder.ReleasableExactlyUnlessFailed | handler/remoteSocketHandler/udp/forwardUtil.go:126-182 | in every reached state some continuation lets a waiting packet go on exactly when its opener has not failed to dial, is not bound to panic, and no handler has panicked |
| Forwarder.StrandingIsReached | handler/remoteSocketHandler/udp/forwardUtil.go:113-138 | a run in which a packet is stranded, for any two packets of one client |
| Checksum.CalculateChecksum | tool/tool.go:40-63 | computes the complement of the folded 32-bit sum, a last odd byte in the high position |
| Checksum.CalculateTcpChecksum | tool/tool.go:66-91 | the same, with a last odd byte in the low position |
| Checksum.WordsOfBytes | tool/tool.go:44-47 | the plain sum adds up pairs of bytes with the high byte first |
| Checksum.TotalOfBytes | tool/tool.go:49-52 | a single last byte counts as a high byte, in the TCP variant as a low byte |
| Checksum.AddWords | tool/tool.go:45-47 | the 32-bit accumulator holds the plain sum of the words modulo 2^32 |
| Checksum.FoldCarries | tool/tool.go:55-57 | the folding loop ends |
| Checksum.FoldReduces | tool/tool.go:55-57 | folding keeps the sum modulo 65535 and yields zero for zero only |
| Checksum.ChecksumOfTotal | tool/tool.go:40-63 | the end-around-carry definition of RFC 1071, section 1, in terms of the plain sum |
| Checksum.ExampleOfTheRfc | tool/tool.go:40-63 | the definition gives the checksum of the example in section 3 of RFC 1071 |
| Checksum.CorrectUpToLimit | tool/tool.go:40-63 | the code agrees with RFC 1071 for all data of a length exactly when the length is at most 131074 |
| Checksum.AgreesExactly | tool/tool.go:40-63 | for every single datum, the code agrees with RFC 1071 exactly when the accumulator wraps around a multiple of 65535 times and does not wrap to zero |
| Checksum.SelfVerifying | tool/tool.go:40-63 | the checksum written into a zeroed even field makes the recomputed one zero, and no other word does but the other form of zero |
| Checksum.DetectsChangedWord | tool/tool.go:40-63 | changing one word of a verified packet goes unnoticed exactly when the word is congruent modulo 65535 and the data is not all zero |
| Checksum.TcpAgreesOnEvenLengths | tool/tool.go:66-91 | the two functions agree on every even length |
| Checksum.TcpAgreement | tool/tool.go:78-80 | up to the limit the TCP variant agrees with RFC 1071 exactly on even lengths and on a last byte of zero |
| Routes.CountBits | model/route_windows.go:153-171 | counts the positions k below min(mask, 32) whose bit, byte k / 8 shifted right by k % 8, is set, for either form of an IPv4 address; 0 for every other |
| Routes.BitsAreBinary | model/route_windows.go:173-178 | the bits of a byte are its binary digits, bit 0 the least significant |
| Routes.BitIsShifted | model/route_windows.go:173-178 | and the shifted byte tests them |
| Routes.SetBitsCounts | model/route_windows.go:153-171 | the count is the size of the set of positions whose bit is set |
| Routes.To4Exactly | model/route_windows.go:159-159 | an address has an IPv4 form exactly when it has 4 bytes, or those behind ten zeros and two bytes of ones |
| Routes.BitCountMonotone | model/route_windows.go:153-178 | a longer mask never has a smaller count; no count exceeds mask or 32 |
| Routes.ShorterPrefixWins | model/route_windows.go:81-84 | over one interface address, in 4 or 16 bytes, a shorter prefix is preferred exactly when the additional positions have no set bit and its metric is smaller |
| Routes.LongestPrefixExactly | model/route.go:49-68 | among matching routes over one interface, whatever is chosen has the longest prefix exactly when each shorter one misses a set bit of the address or is undercut by a longest one |
| Routes.LongerPrefixLoses | model/route.go:49-68 | two routes over 10.0.0.1, as FindRoutes makes them, of which only the one with the shorter prefix can be chosen |
| Routes.StrictWeakOrder | model/route.go:36-42 | Less is a strict weak order whose ties have equal count and metric |
| Routes.Swap | model/route.go:44-46 | exchanges two elements and keeps all others |
| Routes.Sort | model/route.go:63-63 | orders the slice by Less and keeps its elements |
| Routes.FindContainRoute | model/route.go:49-68 | returns a matching route that no matching route beats, or the default route with 0.0.0.0/0 over the outbound address when none matches; the routes are not modified |
| Routes.ContainsExactly | model/route.go:54-56 | a subnet matches exactly the destinations that agree with its network in the upper bits of its prefix |
| Routes.ChoiceRefinesScan | model/route.go:49-68 | whatever is chosen ties with the route a single pass keeps |

## Left out

- LoadedImage.SectionBytesSurvive: asks that no section, fixup or slot is written over a header byte that is read again; `PrefixLosesBytes` gives files for which it fails otherwise.
- LoadedImage.PointersFollowTheBase: asks the same; `PrefixLosesTheBase` gives files for which it fails otherwise, and `RelocatedByDistanceExactly` the exact condition on the distance.
- The contents of decommitted pages: decommitting is recorded as an action and does not change the image bytes.
- Run-time panics and accesses outside the image or the file: they end in `Fault`, `Crash`, `OutOfImage` or `Panicked`, about which no resource is promised.
- Export tables, exception tables, TLS callbacks, the RtlPcToFileHeader hook and the list of loaded address ranges (which Free never shortens): foreign code, or easy members; whether the hook could be installed is an arbitrary outcome.
- The 32-bit build of the loader: only the 64-bit files are modelled.
- The registry, the flow table and the forwarder as running threads: they are machines on values, because their properties are about interleavings; mutexes, wait groups and channels are primitives with their documented meaning, and a Go map access is one step, which leaves out that the Go runtime may end the process when it finds a map read or written concurrently (forwardUtil.go:137 and forwardState.go:53, 93 access their maps without a mutex).
- Callbacks that call Register or Unregister themselves: covered as calls of another thread.
- Registry.WaiterProgress: that a waiting Unregister returns in the end also needs callbacks that return and threads that are scheduled, which are assumptions about the caller and the runtime.
- FlowTable.OneSocketPerFlow: needs connections whose identify field is not the key of another flow with more calls, which `OneSocketExactlyWhenHarmless` proves to be the exact condition.
- Forwarder.NeverPanics: holds for runs without the janitor and without Close, which act on entries that may be pending or gone, and does not cover the end of the process by a concurrent map access.
- FlowTableLimits.SendableExactlyUnlessDead: for a key that another flow has in its identify field only one half holds, that a payload can be sent when the socket is open or a reader has still to delete the entry (`SendThroughOpen`, `SendAfterRemoval`); a call of that other flow that has not dialled yet may also lead there.
- Routes.Sort: is the insertion sort the sort package uses on short slices; what FindContainRoute promises does not depend on the algorithm.
- Routes.FindContainRoute: destinations and networks are IPv4 numbers; the matching of the net package is not part of this model.
- Routes.LongestPrefixExactly: compares routes over one interface; between interfaces the bits of different addresses are counted, and prefix length decides nothing.
- The lookup of interfaces and addresses in FindRoutes, the callers of the UDP tables, timing and lastActive: I/O.
- gVisor, TUN, netlink, WFP, DNS, dialers, process monitoring, logging: I/O over libraries that are not part of this model.
