# A model of the game server and of the protobuf internals it links

The server keeps the protobuf 3.21.12 sources it is linked with. This project models, in Dafny, the
parts of both that carry state, and proves what they are for.

- **The arena allocator.** `SerialArenaModel`, `SerialArenaProofs`, `SerialArenaRuns`,
  `SerialArenaLaws`, `SerialArenaCleanup` and the class in `SerialArena` model one `SerialArena` word by
  word: addresses are integers, and block headers, cleanup nodes, the free-list table and the links of
  the free lists are words of one memory beside the callers' regions. `ArenaLifetime` is the life of a
  `ThreadSafeArena`: growing, adding up, freeing, reset and destruction, where reading something in a
  freed block is a missing key. `LifecycleIds`, `ThreadCacheModel`, `ThreadCacheProofs` and
  `ThreadCache` are the protocol by which threads find their own `SerialArena`, as interleaved steps.
- **The descriptor databases.** `SymbolNames` is the order of names and the single probe;
  `SimpleIndex` the simple database; `SymbolCompare`, `EncodedSymbols`, `EncodedKeys`, `EncodedIndex`
  and `EncodedLaws` the encoded one with its sets and sorted vectors; `MergedDatabase` the merged one.
  `Descriptors` is what they index.
- **Packets.** `Framing` is the wire format, `RecvBuffer` and `Session` the classes that read and write
  it, `Varint` and `ChatCodec` the `S_Chat` message inside.
- **The room.** `RoomModel` is the broadcast as a state machine with one consumer, `Room` the class.

Classes are modelled as classes whose methods are proved against a specification function of their
state; the properties are lemmas about that function and about all runs.

## Findings

Where the code does less than its documentation says, the code is modelled and the exact condition is
proved.

- `CleanupList` takes the difference of two node pointers that, in a block other than the first whose
  size is not a multiple of 8, are not a whole number of nodes apart. C++ leaves that difference
  undefined. Rounded towards zero, as here, it skips such a block when it holds exactly one cleanup
  (`SkippedExactly`, `RunCleansUpInReverse`, `OddFirstBlockLosesCleanup`); a compiler that compares the
  pointers instead loses nothing (`ComparisonSkipsExactly`). So the loss depends on the compiler, and
  `EvenSizesLoseNothing` says what rules it out with every compiler.
- `AddSymbol` admits the parent of the first key when it sorts below every key
  (`AdmittedKeepsNoPairs`, `ParentAfterChildIsLost`); the comment there takes the iterator to be at a
  name that is not above the new one.
- A duplicate file or extension that the encoded database refuses stays in its set and hides the
  accepted one after the next lookup (`FindsAcceptedExactly`, `RefusedButFound`).
- `SymbolCompare` takes an unpackaged name and a packaged entry without a symbol for equal
  (`CompareExactly`). Such a name is accepted by `AddSymbol` next to its child and may not get into the
  set (`AcceptsExactly`, `InsertedExactly`). Two inputs: a message without a name in package "a", then
  the name "a", both before a lookup (`AcceptedButNotInserted`); and the same two with "A" before them
  and a lookup between (`AcceptedNextToChild`).
- A policy counts as the default one when its start size is the largest block size, 8192, and not the
  default start size, 256 (`DefaultExactly`).
- An explicit default on the wire resets a field, which merging does not (`ParseMergesExactly`).
- Payloads above 65531 bytes do not survive the 16-bit sizes of `Send` (`SendReadsBackExactly`).

## Model

| member | source | states |
|---|---|---|
| SerialArenas.SerialArena.constructor | Server/Libraries/include/google/protobuf/arena.cc:107-123 | A SerialArena made in a first block of any size it fits in satisfies the invariant: bump pointer behind the two headers, limit rounded down to 8. |
| SerialArenas.SerialArena.TryAllocateFromCachedBlock | Server/Libraries/include/google/protobuf/arena_impl.h:229-245 | Hands out the head of the free list for the request, unlinked, when that list exists and is not empty; otherwise null and nothing changes. The invariant is kept. |
| SerialArenas.SerialArena.AllocateFromExisting | Server/Libraries/include/google/protobuf/arena_impl.h:272-279 | Carves n bytes at the bump pointer. |
| SerialArenas.SerialArena.AllocateFromExistingWithCleanup | Server/Libraries/include/google/protobuf/arena_impl.h:345-355 | Carves n bytes and pushes one cleanup node at the other end of the block. |
| SerialArenas.SerialArena.AllocateNewBlock | Server/Libraries/include/google/protobuf/arena.cc:152-181 | Records where the nodes of the full block start, links a block of the size the growth policy gives, and has room for the request. |
| SerialArenas.SerialArena.AllocateAligned | Server/Libraries/include/google/protobuf/arena_impl.h:254-270 | The caller gets a region of the requested size that nobody held before, from a free list or carved, growing by a block when needed. Which of the two is stated by ArrayRequestTakesHead and OtherRequestCarves. |
| SerialArenas.SerialArena.AllocateAlignedWithCleanup | Server/Libraries/include/google/protobuf/arena_impl.h:335-363 | The same with a registered cleanup; AddCleanup is the case of no bytes. The region was not held before. |
| SerialArenas.SerialArena.ReturnArrayMemory | Server/Libraries/include/google/protobuf/arena_impl.h:282-323 | A returned region goes to the head of its free list or becomes the new table; the invariant is kept. |
| SerialArenas.SerialArena.WriteNewTable | Server/Libraries/include/google/protobuf/arena_impl.h:302-309 | The copy and fill loops write the old table and then nulls, although the source and the target are words of one memory. |
| SerialArenas.SerialArena.CleanupList | Server/Libraries/include/google/protobuf/arena.cc:191-206 | The walk over real headers and nodes runs, in order, what CleanupOrder says of the layout, which CleanupReversesRegistration relates to registration. |
| SerialArenas.SerialArena.CleanupBlock | Server/Libraries/include/google/protobuf/arena.cc:194-203 | One block: skipped or run from its newest node to its oldest. |
| SerialArenas.SerialArena.SpaceUsed | Server/Libraries/include/google/protobuf/arena.cc:183-189 | Is the space used that SpaceUsedIsCarved relates to what was handed out. |
| SerialArenaProofs.CachedFits | Server/Libraries/include/google/protobuf/arena_impl.h:229-245 | A request is never larger than 2 to the (index + 4), the least size of what is on its free list. |
| SerialArenaProofs.PopTakesHead | Server/Libraries/include/google/protobuf/arena_impl.h:238-244 | The word popped is the address of the region at the head of the list, which the table, the other regions and the headers do not overlap. |
| SerialArenaProofs.TableGrows | Server/Libraries/include/google/protobuf/arena_impl.h:292-314 | The table is replaced only by a longer one, and all old entries fit in it. |
| SerialArenaRuns.StepKeepsInv | Server/Libraries/include/google/protobuf/arena_impl.h:229-363 | Every allocation, array allocation, return, cleanup registration and store by a holder keeps the whole invariant, memory words included. |
| SerialArenaRuns.RunsKeepPartsApart | Server/Libraries/include/google/protobuf/arena_impl.h:229-363 | In every state of every run the regions with callers, cached blocks, the table, the cleanup nodes and the headers are pairwise disjoint and each is inside its own block. |
| SerialArenaRuns.RunsKeepAlignment | Server/Libraries/include/google/protobuf/arena.cc:107-181 | Headers and regions are 8-aligned in every run; a node is exactly when its block size is a multiple of 8 or it is in the first block, whose limit alone is rounded. |
| SerialArenaRuns.StepLeavesHeldRegions | Server/Libraries/include/google/protobuf/arena_impl.h:254-323 | No step but its holder's own store or return changes the address, size or any word of a region that a caller holds. |
| SerialArenaRuns.CachedRegionFits | Server/Libraries/include/google/protobuf/arena_impl.h:229-245 | A region from a free list was returned before, is at least as large as the request, and is on no list afterwards. |
| SerialArenaRuns.TableReplacedAtMostThrice | Server/Libraries/include/google/protobuf/arena_impl.h:292-314 | In any run the free-list table is replaced at most three times, its length going through at least 2, 8 and 64. |
| SerialArenaLaws.OneListEach | Server/Libraries/include/google/protobuf/arena_impl.h:229-323 | Every request of at least 16 bytes has a list that serves it, for more than 2 to the (i + 3) and at most 2 to the (i + 4) bytes, and every such region has a list that takes it, for sizes from 2 to the (i + 4) up to 2 to the (i + 5). |
| SerialArenaLaws.CanPopExactly | Server/Libraries/include/google/protobuf/arena_impl.h:229-237 | The words of the table allow an array request exactly when its list is there and not empty. |
| SerialArenaLaws.ArrayRequestTakesHead | Server/Libraries/include/google/protobuf/arena_impl.h:229-270 | An array request of at least 16 bytes whose list is not empty gets the region at the head of that list; the bump pointer, the head block and all other regions and lists stay. |
| SerialArenaLaws.OtherRequestCarves | Server/Libraries/include/google/protobuf/arena_impl.h:254-279 | Every other request carves one region of n bytes, at the bump pointer or behind the header of a new block that is added exactly when the head block has too little room, and changes no list and no table. |
| SerialArenaLaws.CleanupRequestCarves | Server/Libraries/include/google/protobuf/arena_impl.h:335-363 | A request with a cleanup carves its n bytes, never from a list, and adds one node with the element and the destructor below the limit, in a new block exactly when 16 bytes more than n do not fit. |
| SerialArenaLaws.ReturnedToItsList | Server/Libraries/include/google/protobuf/arena_impl.h:282-323 | A returned region that the table has a list for becomes the head of that list, and nothing else changes. |
| SerialArenaLaws.ReturnedBecomesTable | Server/Libraries/include/google/protobuf/arena_impl.h:292-314 | Any other returned region becomes the table, with a list for each of its words up to 64: the old lists, then empty ones. |
| SerialArenaLaws.GrowthSize | Server/Libraries/include/google/protobuf/arena.cc:56-80 | A block that is added has twice the last size, up to the largest size, when that holds the request and 24 bytes more, and exactly these otherwise. |
| SerialArenaLaws.FirstSize | Server/Libraries/include/google/protobuf/arena.cc:56-80 | The first block has the start size unless it must hold more; the default sizes are 256 and 8192. |
| SerialArenaLaws.SpaceUsedIsCarved | Server/Libraries/include/google/protobuf/arena.cc:152-189 | In any run, across block growth, the space used is the sum of the bytes carved for callers: no headers, no nodes, nothing left over in full blocks, nothing given out again by the lists. |
| SerialArenaCleanup.SkippedExactly | Server/Libraries/include/google/protobuf/arena.cc:194-203 | With the pointer difference rounded towards zero, CleanupList skips a block exactly when it has no cleanup or has one and is a later block whose size is not a multiple of 8. |
| SerialArenaCleanup.ComparisonSkipsExactly | Server/Libraries/include/google/protobuf/arena.cc:198-199 | A compiler that compares the pointers instead skips only empty blocks; the two readings agree but on the blocks that lose a cleanup. |
| SerialArenaCleanup.CleanupOrderLength | Server/Libraries/include/google/protobuf/arena.cc:191-206 | What runs is everything registered but one cleanup for each such block. |
| SerialArenaCleanup.RunCleansUpInReverse | Server/Libraries/include/google/protobuf/arena.cc:152-206 | At the end of any run, across any block growth, CleanupList runs each registered cleanup once in exact reverse order if and only if no such block exists. |
| SerialArenaCleanup.OddFirstBlockLosesCleanup | Server/Libraries/include/google/protobuf/arena.cc:152-206 | A legal run in which, with that rounding, the only registered cleanup never runs: a first block of 1001 bytes, then one of 2002. |
| SerialArenaCleanup.EvenSizesLoseNothing | Server/Libraries/include/google/protobuf/arena.cc:56-80 | A first block size that is a multiple of 4 and a largest block size that is a multiple of 8 rule the loss out in every run, and then no pointer difference is undefined. |
| ArenaLifetime.ThreadSafeArena.InitializeFrom | Server/Libraries/include/google/protobuf/arena.cc:229-239 | The user's block becomes the only block when it is large enough, and is ignored otherwise. |
| ArenaLifetime.ThreadSafeArena.InitializeWithPolicy | Server/Libraries/include/google/protobuf/arena.cc:241-299 | The policy lies in the first block, the user's or a new one, unless it counts as the default one. |
| ArenaLifetime.ThreadSafeArena.AddSerialArena | Server/Libraries/include/google/protobuf/arena.cc:493-504 | A new SerialArena in front of the list, with the given owner, in a block of the start size in force or of the 104 bytes it needs; all owners and blocks before stay, and so does the last block of the last entry. |
| ArenaLifetime.ThreadSafeArena.AllocateNewBlock | Server/Libraries/include/google/protobuf/arena.cc:152-181 | A block inserted in front of one SerialArena's chain, of twice the size of its head block up to the largest size in force, or of n + 24 bytes where that is more; all other blocks, all owners and the last block stay. |
| ArenaLifetime.ThreadSafeArena.SpaceAllocated | Server/Libraries/include/google/protobuf/arena.cc:460-467 | The loop over the SerialArenas adds up exactly the sizes of all blocks. |
| ArenaLifetime.ThreadSafeArena.SerialFree | Server/Libraries/include/google/protobuf/arena.cc:125-135 | Frees all blocks of a SerialArena but the oldest, reading each header before its block goes. |
| ArenaLifetime.ThreadSafeArena.Free | Server/Libraries/include/google/protobuf/arena.cc:363-371 | Frees every block but the last block of the last entry, which is returned; the next pointer of an entry is read while its block is still there. |
| ArenaLifetime.ThreadSafeArena.Destroy | Server/Libraries/include/google/protobuf/arena.cc:338-361 | Deallocates, in list order and with the policy's function, every block but a user-owned initial one; the total is the sum of all block sizes; the policy is read before its block goes. |
| ArenaLifetime.ThreadSafeArena.Reset | Server/Libraries/include/google/protobuf/arena.cc:373-409 | The same, and the arena is valid again: the user's block alone, or a new block for the saved policy, or none. |
| ArenaLifetime.EachFreedOnce | Server/Libraries/include/google/protobuf/arena.cc:125-135 | In the log of deallocations each freed block occurs exactly once with its own size, and no other block occurs. |
| ArenaLifetime.AfterFree | Server/Libraries/include/google/protobuf/arena.cc:363-371 | When all but the last block are freed only that one is left, and the policy in it is untouched. |
| ArenaLifetime.DefaultExactly | Server/Libraries/include/google/protobuf/arena_impl.h:115-119 | A policy counts as default exactly when both its sizes are 8192 and it has no functions and no collector; the default sizes 256 and 8192 do not count. |
| LifecycleIds.StepInBatch | Server/Libraries/include/google/protobuf/arena.cc:305-317 | Stepping by two from an even number that is not the end of a batch stays in the batch. |
| LifecycleIds.IdsAreDistinct | Server/Libraries/include/google/protobuf/arena.cc:305-321 | Whichever threads take ids in whichever order, all ids are even and no two are equal. |
| LifecycleIds.FirstIds | Server/Libraries/include/google/protobuf/arena.cc:305-321 | An instance: two lifetimes of one thread and one of a second have the ids 0, 2 and 512, from two batches. |
| LifecycleIds.BatchServes | Server/Libraries/include/google/protobuf/arena.cc:305-317 | A thread that takes up to 256 ids takes the shared counter once and its next id is twice their number. |
| ThreadCacheProofs.StepKeepsSafe | Server/Libraries/include/google/protobuf/arena_impl.h:557-592 | Every step of every thread keeps lists, caches, hints and all threads' positions consistent, with addresses used again after resets. |
| ThreadCacheProofs.CreateKeepsSafe | Server/Libraries/include/google/protobuf/arena.cc:301-336 | Construction and Reset: a stale cache entry cannot match the new tag. |
| ThreadCacheProofs.RestartKeepsSafe | Server/Libraries/include/google/protobuf/arena.cc:223-226 | A thread that ends, and another whose cache has the same address: it owns the entries and finds them by walking. |
| ThreadCacheProofs.PushKeepsSafe | Server/Libraries/include/google/protobuf/arena.cc:498-504 | The successful compare-and-swap keeps what every other thread knows about the list it is walking. |
| ThreadCache.CallersGetTheirOwn | Server/Libraries/include/google/protobuf/arena_impl.h:567-592 | In every interleaving, whatever a step hands to its caller, from the cache, the hint or the fallback, is in the arena's current list, owned by the caller, and the one that following the next pointers finds. |
| ThreadCache.EveryEndingIsLogged | Server/Libraries/include/google/protobuf/arena_impl.h:557-592 | In every interleaving a step that ends a call hands its thread exactly one SerialArena, and no other step hands out anything; only a thread that gives up after the fast path ends without. |
| ThreadCache.CacheServesNextCall | Server/Libraries/include/google/protobuf/arena_impl.h:557-566 | A thread that cached its SerialArena of an arena gets it in the first step of its next call there, whatever other threads do, unless it cached another or the arena was reset. |
| ThreadCache.HintServesOwner | Server/Libraries/include/google/protobuf/arena_impl.h:567-592 | The end of a call stores its SerialArena as the hint, and a caller that reads a hint of its own gets it. |
| ThreadCache.SoloProgress | Server/Libraries/include/google/protobuf/arena.cc:483-504 | In every safe state, a thread in a call that runs alone has a next step, and comes nearer to its end with it. |
| ThreadCache.CreateStartsAfresh | Server/Libraries/include/google/protobuf/arena.cc:301-336 | Construction and Reset leave only the initial block's SerialArena, if there is one, in the list, and a reset keeps the message-owned bit. |
| ThreadCache.AllocatesOnlyWithoutOwn | Server/Libraries/include/google/protobuf/arena.cc:483-497 | A thread makes a new SerialArena only when the list has none of its own. |
| ThreadCache.PointersAreAlive | Server/Libraries/include/google/protobuf/arena.cc:483-504 | No step follows a pointer to a SerialArena that a reset has freed. |
| ThreadCache.OneEntryPerThread | Server/Libraries/include/google/protobuf/arena.cc:493-504 | The list never holds two entries of one thread. |
| ThreadCache.RunKeepsEntries | Server/Libraries/include/google/protobuf/arena.cc:500-504 | Until a reset the list only grows at its front. |
| ThreadCache.PushIsKept | Server/Libraries/include/google/protobuf/arena.cc:500-504 | An entry pushed by a successful compare-and-swap stays in the list until a reset, owned by its thread. |
| ThreadCache.LifetimesAreDistinct | Server/Libraries/include/google/protobuf/arena.cc:305-321 | Two lifetimes of arenas in one run, resets included, never have the same id. |
| SymbolNames.NothingBetween | Server/Libraries/include/google/protobuf/descriptor_database.cc:151-191 | Since '.' sorts below every other legal character, a legal name that sorts between a parent and its child is a child of that parent too. |
| SymbolNames.IsSubSymbolExactly | Server/Libraries/include/google/protobuf/descriptor_database.cc:185-192 | A name covers another exactly when they are equal or the other is it followed by a dot and any rest. |
| SymbolNames.LegalExactly | Server/Libraries/include/google/protobuf/descriptor_database.cc:152-163 | The legal characters are those with the codes of the dot, the underscore, the digits and the Latin letters. |
| SymbolNames.ProbeFindsKey | Server/Libraries/include/google/protobuf/descriptor_database.cc:298-306 | A probe for a key of the list finds that key. |
| SymbolNames.ProbeIsScan | Server/Libraries/include/google/protobuf/descriptor_database.cc:298-306 | On legal names without parent and child the single last-less-or-equal probe finds the unique key that is the name or its parent, or there is none. |
| SymbolNames.FindsAllExactly | Server/Libraries/include/google/protobuf/descriptor_database.cc:298-306 | On sorted legal names every name that some key covers is found exactly when no key is the parent of another. |
| SymbolNames.AdmitsExactly | Server/Libraries/include/google/protobuf/descriptor_database.cc:211-241 | A name that does not sort below every key is admitted exactly when no key is equal to it, its parent or its child. |
| SymbolNames.AdmitsBelowAll | Server/Libraries/include/google/protobuf/descriptor_database.cc:171-241 | A name below every key is admitted exactly when at most one key is under it, because the increment skips the first key. |
| SymbolNames.AdmittedKeepsNoPairs | Server/Libraries/include/google/protobuf/descriptor_database.cc:197-251 | An admitted name leaves the list without parent and child unless it sorts below every key and is the parent of the first. |
| SymbolNames.ParentAfterChildIsLost | Server/Libraries/include/google/protobuf/descriptor_database.cc:197-251 | An instance: after "a.b" the name "a" is admitted, and then "a.z" is not found although its parent is there. |
| SymbolCompare.CompareExactly | Server/Libraries/include/google/protobuf/descriptor_database.cc:487-521 | SymbolCompare is the order of the full dotted names exactly unless the right side is a packaged entry without a symbol whose package is the whole, unpackaged left side; then neither sorts first. |
| SymbolCompare.CompareIsOrder | Server/Libraries/include/google/protobuf/descriptor_database.cc:487-521 | Where packaged entries have symbols it is a strict weak order whose equivalence is equality of full names. |
| SimpleIndex.DescriptorIndex.AddFile | Server/Libraries/include/google/protobuf/descriptor_database.cc:117-148 | The nested loops with early returns do what adding the file's entries one by one, up to the first refusal, does; what was added before a refusal stays. |
| SimpleIndex.DescriptorIndex.AddSymbol | Server/Libraries/include/google/protobuf/descriptor_database.cc:196-251 | One symbol, accepted and placed as on the sorted list of keys. |
| SimpleIndex.DescriptorIndex.AddNestedExtensions | Server/Libraries/include/google/protobuf/descriptor_database.cc:253-265 | Extensions of nested messages come before the message's own, recursively. |
| SimpleIndex.DescriptorIndex.AddExtension | Server/Libraries/include/google/protobuf/descriptor_database.cc:267-290 | Only a fully-qualified extension is indexed, and only once. |
| SimpleIndex.DescriptorIndex.FindSymbol | Server/Libraries/include/google/protobuf/descriptor_database.cc:298-306 | What is found covers the name and is registered under its own file name; without parent and child it is the only such entry. |
| SimpleIndex.DescriptorIndex.FindExtension | Server/Libraries/include/google/protobuf/descriptor_database.cc:308-313 | What is found is registered under its own file name. |
| SimpleIndex.NoPairsExactly | Server/Libraries/include/google/protobuf/descriptor_database.cc:117-251 | Adding a file keeps parents and children apart exactly when no name of it, at its turn, sorts below every key and is the parent of the first. |
| Descriptors.DeclaredExactly | Server/Libraries/include/google/protobuf/descriptor_database.cc:117-148 | A file declares the names of its messages, enum types, top-level extensions and services, and the fully-qualified extensions at its top level and in messages at any depth, and nothing else. |
| Descriptors.MessageInOrder | Server/Libraries/include/google/protobuf/descriptor_database.cc:255-268 | Within a message its name comes first, then the extensions of messages nested in it, then its own. |
| Descriptors.FileInOrder | Server/Libraries/include/google/protobuf/descriptor_database.cc:131-145 | Within a file messages come first, then enum types, extensions and services. |
| SimpleIndex.AddFileSucceedsExactly | Server/Libraries/include/google/protobuf/descriptor_database.cc:117-242 | Where no symbol is the parent of another, AddFile succeeds and keeps that exactly when the file's name is new, its symbols are legal, none is equal to, the parent or the child of an old one or of another of its own, and its extensions are new and differ. |
| SimpleIndex.AddFileGrows | Server/Libraries/include/google/protobuf/descriptor_database.cc:117-148 | AddFile adds entries for the file and for what it declares only, replaces none, and refuses a name it has. |
| SimpleIndex.AddedIsFoundForever | Server/Libraries/include/google/protobuf/descriptor_database.cc:117-148 | A file that was added is found by its name, by the full names, package and dot in front, of all that it declares and by its extensions, whatever is added or refused after it. |
| SimpleIndex.LookupIsScan | Server/Libraries/include/google/protobuf/descriptor_database.cc:298-306 | A lookup is a scan of all entries. |
| SimpleIndex.FoundIsRegistered | Server/Libraries/include/google/protobuf/descriptor_database.cc:117-148 | In every reachable database, after failed AddFiles too, a file found by symbol or extension is the one FindFile gives for its name. |
| MergedDatabase.FindFileByName | Server/Libraries/include/google/protobuf/descriptor_database.cc:954-962 | The first source that has the name answers. |
| MergedDatabase.FindFileContaining | Server/Libraries/include/google/protobuf/descriptor_database.cc:964-1006 | The nested loops answer as FileContaining says, which MergedAnswersExactly states without loops. |
| MergedDatabase.MergedAnswersExactly | Server/Libraries/include/google/protobuf/descriptor_database.cc:964-983 | A merged database gives a file exactly when some source is the first to answer with it and no earlier source has a file of that name. |
| MergedDatabase.EncodedIsConsistent | Server/Libraries/include/google/protobuf/descriptor_database.cc:771-865 | An encoded database in which no file name was tried again after a lookup is self-consistent. |
| MergedDatabase.SimpleFindsAdded | Server/Libraries/include/google/protobuf/descriptor_database.cc:298-320 | As a source, a simple database answers with each file added to it: for its name, the full names it declares, and its extensions. |
| MergedDatabase.EncodedFindsAdded | Server/Libraries/include/google/protobuf/descriptor_database.cc:771-865 | So does an encoded one: for the name and the extensions unless a lookup came between two attempts, and for the symbols unless an AddSymbol missed a child. |
| MergedDatabase.AnyNestingIsConsistent | Server/Libraries/include/google/protobuf/descriptor_database.cc:954-1006 | Over self-consistent sources, among them any simple database files were added to and any encoded one in which no file name was tried again after a lookup, a merged database is self-consistent at any nesting. |
| EncodedSymbols.MergeKeepsEntries | Server/Libraries/include/google/protobuf/descriptor_database.cc:804-812 | MergeIntoFlat keeps every entry of both sides. |
| EncodedSymbols.MergeKeepsSorted | Server/Libraries/include/google/protobuf/descriptor_database.cc:804-812 | MergeIntoFlat keeps the order of the full names where no entry is the parent of another. |
| EncodedSymbols.AddKeepsFlat | Server/Libraries/include/google/protobuf/descriptor_database.cc:708-728 | Inserting an accepted entry by SymbolCompare puts it where its full name belongs. |
| EncodedSymbols.ProbeByIsScan | Server/Libraries/include/google/protobuf/descriptor_database.cc:777-787 | The probe of the flat vector by SymbolCompare, which can be confused by a string, still finds the unique entry that covers the name. |
| EncodedSymbols.ProbeIsPartitioned | Server/Libraries/include/google/protobuf/descriptor_database.cc:176-183 | The entries that a string sorts before are a tail of the vector, so a binary search finds their start. |
| EncodedSymbols.AcceptsExactly | Server/Libraries/include/google/protobuf/descriptor_database.cc:664-729 | Whatever is in the set and the vector, a name is accepted exactly when every entry that conflicts with it escapes: the first of its list, below which the name sorts, or a packaged entry without a symbol that the name is confused with. |
| EncodedSymbols.AcceptsWithoutEscapes | Server/Libraries/include/google/protobuf/descriptor_database.cc:664-729 | Where nothing can escape, a name is accepted exactly when it conflicts with no entry accepted before. |
| EncodedSymbols.AcceptedKeepsNoPairs | Server/Libraries/include/google/protobuf/descriptor_database.cc:664-729 | An accepted name leaves the accepted symbols without parent and child exactly when neither list hides a child of it in one of these two ways. |
| EncodedSymbols.InsertedExactly | Server/Libraries/include/google/protobuf/descriptor_database.cc:723-729 | std::set::insert takes an accepted entry for a duplicate exactly when the set has a packaged entry without a symbol that it is confused with. |
| EncodedSymbols.AcceptedButNotInserted | Server/Libraries/include/google/protobuf/descriptor_database.cc:692-729 | An instance: a message without a name in package "a", and then the name "a", which is accepted and lost. |
| EncodedSymbols.AcceptedNextToChild | Server/Libraries/include/google/protobuf/descriptor_database.cc:715-720 | An instance in the vector: the name "a" is below neither list and is accepted next to its child "a.". |
| EncodedIndex.SearchIsScan | Server/Libraries/include/google/protobuf/descriptor_database.cc:771-820 | After any interleaving of added files and lookups on which no AddSymbol missed a child, FindSymbol answers like a scan of all accepted symbols. |
| EncodedIndex.RoundsSeparateExactly | Server/Libraries/include/google/protobuf/descriptor_database.cc:692-820 | After any interleaving no accepted symbol is the parent of another exactly when no AddSymbol on the way missed a child. |
| EncodedIndex.SeparateExactly | Server/Libraries/include/google/protobuf/descriptor_database.cc:624-729 | The same for the entries of one file, from any good state. |
| EncodedIndex.AcceptsInOrder | Server/Libraries/include/google/protobuf/descriptor_database.cc:624-660 | AddFile accepts a file's symbols in order up to the first entry refused, and all of them if it succeeds. |
| EncodedIndex.ReachableIsGood | Server/Libraries/include/google/protobuf/descriptor_database.cc:692-820 | The representation invariant holds after any interleaving of adding and looking up. |
| EncodedIndex.DescriptorIndex.AddFile | Server/Libraries/include/google/protobuf/descriptor_database.cc:624-660 | Performs that specification, nested loops and early returns included; what it leaves is stated in EncodedLaws. |
| EncodedIndex.DescriptorIndex.EnsureFlat | Server/Libraries/include/google/protobuf/descriptor_database.cc:814-820 | Empties the sets into the vectors. |
| EncodedIndex.DescriptorIndex.FindSymbol | Server/Libraries/include/google/protobuf/descriptor_database.cc:771-787 | Flattens, then answers as Lookup on the state before. |
| EncodedIndex.DescriptorIndex.FindFile | Server/Libraries/include/google/protobuf/descriptor_database.cc:854-865 | Flattens, then gives the file of the first entry of the name. |
| EncodedIndex.DescriptorIndex.FindExtension | Server/Libraries/include/google/protobuf/descriptor_database.cc:789-802 | Flattens, then gives the file of the first entry of the extension; which file that is, is stated by FindsAcceptedExtensionExactly and AddedExtensionIsFound. |
| EncodedKeys.SucceedsExactly | Server/Libraries/include/google/protobuf/descriptor_database.cc:636-643 | An attempt to insert a file name or extension succeeds exactly when none was made before. |
| EncodedKeys.FindsAcceptedExactly | Server/Libraries/include/google/protobuf/descriptor_database.cc:744-766 | A lookup gives the accepted entry of a key exactly when the key was not tried again after a lookup: the refused duplicate stays in the set and hides it. |
| EncodedKeys.RefusedButFound | Server/Libraries/include/google/protobuf/descriptor_database.cc:636-643 | Two files of one name with a lookup between: the second is refused and is the one found. |
| EncodedIndex.FindsAcceptedFileExactly | Server/Libraries/include/google/protobuf/descriptor_database.cc:624-660 | The same for whole histories of AddFile and FindFile. |
| EncodedIndex.SymbolFileExactly | Server/Libraries/include/google/protobuf/descriptor_database.cc:771-787 | The file found for a symbol is the one found by its own name exactly when no two rounds of adding tried that name. |
| EncodedIndex.ExtensionFileExactly | Server/Libraries/include/google/protobuf/descriptor_database.cc:789-802 | The same for an extension. |
| EncodedLaws.AddFileSucceedsExactly | Server/Libraries/include/google/protobuf/descriptor_database.cc:624-729 | After any interleaving on which no AddSymbol missed a child, AddFile succeeds and misses none exactly when the package is legal, the file's name was never tried, its symbols are legal, no full name is equal to, the parent or the child of one accepted before or of another of its own, and its extensions were never tried and differ. |
| EncodedLaws.ExtensionsAfterRounds | Server/Libraries/include/google/protobuf/descriptor_database.cc:624-660 | After any interleaving of AddFile and lookups the extensions kept are those that rounds of attempts, one for each declared extension up to a file's first refusal, leave. |
| EncodedLaws.FindsAcceptedExtensionExactly | Server/Libraries/include/google/protobuf/descriptor_database.cc:789-802 | An extension is found as the one that was accepted exactly when no two rounds tried to add it. |
| EncodedLaws.AddedExtensionIsFound | Server/Libraries/include/google/protobuf/descriptor_database.cc:789-802 | An extension that a successfully added file declares, at any depth, is found as that file if no other round tried to add it. |
| EncodedLaws.AddedSymbolIsFound | Server/Libraries/include/google/protobuf/descriptor_database.cc:771-787 | The full name of each message, enum type, extension and service of a successfully added file is found as that file, after any interleaving on which no AddSymbol missed a child. |
| EncodedLaws.AddedFileIsFound | Server/Libraries/include/google/protobuf/descriptor_database.cc:854-865 | A successfully added file is found by its name if no other round tried the name. |
| RecvBuffers.RecvBuffer.SetWritePos | Server/TopViewServer/RecvBuffer.h:20-28 | Moves the write position unless that overruns the buffer. |
| RecvBuffers.RecvBuffer.SetReadPos | Server/TopViewServer/RecvBuffer.h:30-38 | Takes bytes out unless there are fewer. |
| RecvBuffers.RecvBuffer.Clear | Server/TopViewServer/RecvBuffer.h:50-64 | Moves what is left to position 0 and changes none of it. |
| Framing.CutsDoNotMatter | Server/TopViewServer/Session.cpp:54-85 | However a stream is cut into reads, the frames taken out are the complete frames of the whole stream and the bytes kept are what is left of it. |
| Framing.FrameIs | Server/TopViewServer/Session.cpp:56-81 | Four bytes lo, hi, idLo, idHi with lo + 256 * hi four more than a payload's size, and the payload, are one frame with the id idLo + 256 * idHi, whatever follows. |
| Framing.UnfinishedFrame | Server/TopViewServer/Session.cpp:56-67 | Nothing is taken out of fewer than four bytes or before the announced size is there. |
| Framing.PacketIs | Server/TopViewServer/Session.cpp:121-132 | A packet is the size with its header, low byte first, then 2 and 0, then the payload. |
| Framing.RoomExactly | Server/TopViewServer/Session.cpp:54-85 | The buffer is full after processing exactly when it was full and starts with a frame larger than the buffer. |
| Framing.AlwaysRoom | Server/TopViewServer/Session.cpp:17-32 | With frames up to the buffer size there is room for at least one byte after any reads. |
| Sessions.Session.ProcessRecv | Server/TopViewServer/Session.cpp:43-86 | Dispatches exactly the complete frames whose id has a handler, in order, and leaves the rest at position 0; an empty read closes. |
| Sessions.HandledInPlace | Server/TopViewServer/Session.cpp:72-75 | Among the frames taken out each one with a handler is handled in its place, and no other. |
| Sessions.Session.RegisterRecv | Server/TopViewServer/Session.cpp:17-32 | Reads as much as the writable space takes, and nothing exactly when the buffer is full. |
| Sessions.Session.ReceiveAll | Server/TopViewServer/Session.cpp:17-32 | Over any non-empty reads that fit, what is dispatched are the frames of the whole stream, and room is left. |
| Sessions.Session.Send | Server/TopViewServer/Session.cpp:103-135 | Writes into one buffer, packet by packet, what Encoded says; an empty list sends nothing. |
| Sessions.WritePackets | Server/TopViewServer/Session.cpp:118-132 | The writing loop never leaves the buffer. |
| Framing.SendReadsBackExactly | Server/TopViewServer/Session.cpp:114-132 | What Send writes is read back by the frame rule as the same payloads in order with id S_CHAT, and fills the buffer, exactly when every payload has at most 65531 bytes. |
| Varint.SizeIsLength | Server/Libraries/include/google/protobuf/io/coded_stream.h:1728-1743 | The multiplications for a division by seven give the number of bytes written, for every 32-bit number. |
| Varint.UnsafeVarint | Server/Libraries/include/google/protobuf/io/coded_stream.h:899-924 | The loop that sets flags afterwards writes the base 128 encoding (Protocol Buffers Encoding, section "Base 128 Varints"). |
| Varint.UnsafeWriteSize | Server/Libraries/include/google/protobuf/io/coded_stream.h:924-933 | The loop that sets each flag with its byte writes the same encoding. |
| Varint.DecodeEncode | Server/Libraries/include/google/protobuf/parse_context.h:537-552 | A written number is read back, whatever follows. |
| Varint.EncodeIs | Server/Libraries/include/google/protobuf/io/coded_stream.h:899-933 | The bytes written are the number in groups of seven bits, low ones first, with the flag on all but the last, which is not a zero unless it is the only one. |
| Varint.EncodeExamples | Server/Libraries/include/google/protobuf/io/coded_stream.h:899-933 | Instances: 127, 128, 300 and the largest 32-bit number. |
| Varint.VarintParse | Server/Libraries/include/google/protobuf/parse_context.h:537-552 | The reader with its subtracted flags gives the number modulo 2 to the 32, from at most ten bytes. |
| Varint.ReadTag | Server/Libraries/include/google/protobuf/parse_context.h:561-577 | The same from at most five bytes. |
| Varint.ReadSize | Server/Libraries/include/google/protobuf/parse_context.cc:351-369 | The same without wrap-around; sizes of two gigabytes or close to the limit are refused. |
| Varint.DecodeSizeExactly | Server/Libraries/include/google/protobuf/parse_context.cc:351-369 | A written 32-bit size is read back exactly when it is at most 2147483631, and refused otherwise. |
| ChatCodec.InternalSerialize | Server/TopViewServer/Protocol.pb.cc:438-466 | Writes each non-default field with its tag, whichever way the string is written; the bytes are those of WireForm. |
| ChatCodec.WriteStringMaybeAliased | Server/Libraries/include/google/protobuf/io/coded_stream.h:706-717 | A string field is tag, length and bytes, on the fast path and on the other. |
| ChatCodec.ByteSizeLong | Server/TopViewServer/Protocol.pb.cc:468-490 | Equals the number of bytes written. |
| ChatCodec.InternalParse | Server/TopViewServer/Protocol.pb.cc:385-436 | The parse loop, on a message that may have fields set, is Parse, whose tags MessageTag, SenderTag and OtherTags state in numbers. |
| ChatCodec.WireForm | Server/TopViewServer/Protocol.pb.cc:438-452 | A message is written as 10, its size and its bytes, then 16 and the sender, each only when it is not empty or zero; for instance 10 2 104 105 16 172 2. |
| ChatCodec.MessageTag | Server/TopViewServer/Protocol.pb.cc:391-400 | For any bytes after a 10: a size and that many bytes become the message, and parsing goes on behind them, or fails if there are fewer. |
| ChatCodec.NoSize | Server/TopViewServer/Protocol.pb.cc:391-400 | Without a size after the 10 the parse fails. |
| ChatCodec.SenderTag | Server/TopViewServer/Protocol.pb.cc:401-408 | For any bytes after a 16: the number becomes the sender, modulo 2 to the 32, and parsing goes on behind it, or fails if there is none. |
| ChatCodec.OtherTags | Server/TopViewServer/Protocol.pb.cc:409-422 | Any other tag of one byte ends the parse: a zero or the end of a group is malformed, the others are unknown fields. |
| ChatCodec.AnyTag | Server/TopViewServer/Protocol.pb.cc:388-422 | A tag of up to five bytes is read as the same number in one byte, and is unknown or malformed when that does not fit. |
| ChatCodec.TagTooLong | Server/Libraries/include/google/protobuf/parse_context.h:561-577 | Five bytes that all have the flag are no tag. |
| ChatCodec.RoundTrip | Server/TopViewServer/Protocol.pb.cc:385-466 | Parsing a serialized message gives it back (section "Length-Delimited Records"). |
| ChatCodec.ConcatenationMerges | Server/TopViewServer/Protocol.pb.cc:492-507 | Parsing one message written after another equals MergeImpl of the second into the first (section "Last One Wins"). |
| ChatCodec.ParseMergesExactly | Server/TopViewServer/Protocol.pb.cc:385-436 | For any bytes that parse, parsing them into a message equals MergeImpl of what they parse to exactly when a field that they last set to empty or zero is empty or zero in the message. |
| ChatCodec.ParseIsUpdate | Server/TopViewServer/Protocol.pb.cc:385-436 | Parsing into a message sets each field to what the bytes last set it to, and fails whatever the message was if the bytes are malformed (section "Last One Wins"). |
| ChatCodec.ZeroOnTheWire | Server/TopViewServer/Protocol.pb.cc:492-507 | An instance: an explicit zero on the wire resets the sender. |
| ChatCodec.ParseInParts | Server/TopViewServer/Protocol.pb.cc:385-436 | Parsing goes on from what was parsed, wherever bytes are split between fields. |
| ChatCodec.ChatsTravel | Server/TopViewServer/PacketHandler.cpp:18-26 | A batch of messages that fit their frames goes through Send, the frame rule and the parser unchanged and in order. |
| RoomModel.FlushedIsPrefix | Server/TopViewServer/Room.cpp:79-122 | In every interleaving what was taken out for sending is a prefix of what was pushed, and the rest is in the pending list, the local queue and the queue, in order. |
| RoomModel.PushedInOrder | Server/TopViewServer/Room.cpp:68-77 | That order is the order of the pushes. |
| RoomModel.PlayersGetSegments | Server/TopViewServer/Room.cpp:111-131 | A player that enters once is sent a contiguous piece of the pushes, starting no later than the first push after it entered. |
| RoomModel.PlayersAgree | Server/TopViewServer/Room.cpp:111-131 | Two players see what both see at the same place of that order. |
| RoomModel.NothingIsMissed | Server/TopViewServer/Room.cpp:44-135 | In any run a player that enters, for the first time or again, and neither leaves nor loses its session, has been sent, whenever the consumer waits, everything pushed since it entered that was taken out, at the end of what it was sent; with an empty queue that is everything pushed since. |
| RoomModel.InRoomIsServed | Server/TopViewServer/Room.cpp:79-135 | Told from the state: a player in the room that entered once has been sent all that was taken out from its first snapshot on, and nothing else. |
| RoomModel.LeavingEndsSending | Server/TopViewServer/Room.cpp:51-131 | In any run a player that leaves, and is not in a snapshot being served, is sent nothing more until it enters again. |
| RoomModel.LeavingLate | Server/TopViewServer/Room.cpp:111-131 | One that leaves while a snapshot with it is being served may still be sent that batch, and nothing else. |
| RoomModel.ExpiryEndsSending | Server/TopViewServer/Room.cpp:125-131 | A player whose session is gone is sent nothing more. |
| Rooms.Room.PushETCJob | Server/TopViewServer/Room.cpp:68-77 | Is the model's push step. |
| Rooms.Room.EnterObject | Server/TopViewServer/Room.cpp:44-49 | Is the model's enter step, after which NothingIsMissed holds. |
| Rooms.Room.ExitObject | Server/TopViewServer/Room.cpp:51-56 | Is the model's exit step, after which LeavingEndsSending and LeavingLate hold. |
| Rooms.Room.ExecuteAll | Server/TopViewServer/Room.cpp:105-109 | The jobs of the local queue append their messages in order. |
| Rooms.Room.SendAll | Server/TopViewServer/Room.cpp:125-131 | Each player of the snapshot with a session is sent the batch once, in any order of players. |
| Rooms.Room.FlushRound | Server/TopViewServer/Room.cpp:79-135 | One undisturbed round sends everything queued, in order, to every player with a session. |

## Left out

- Boost.Asio, sockets, threads, console output: a read is any chunk of bytes, and a write is an entry in a log.
- Sessions.Session.ProcessRecv: does not model frames with a header size below 4 or the packet id 65535, for which the code makes no progress or reads outside a table; they are preconditions.
- Sessions.Session.ReceiveAll: has the same preconditions on frames as ProcessRecv.
- RecvBuffers.RecvBuffer.Clear: does not model what memcpy may do on overlapping bytes; the bytes are moved.
- Rooms.Room.FlushRound: does not model other threads between its sections; interleavings are in RoomModel.
- Rooms.Room.EnterObject: does not model the dispatch tables by object type; only players are kept.
- Rooms.Room.ExitObject: does not model the dispatch tables by object type; only players are erased.
- Players that leave and enter again: the segment properties are stated for players that enter once.
- The callbacks of jobs other than the broadcast of a chat message.
- EncodedIndex.DescriptorIndex.FindFile: searches the runs of equal keys by key instead of by lower_bound; the files themselves stand for their encoded bytes.
- EncodedIndex.DescriptorIndex.FindExtension: searches the runs of equal keys by key instead of by lower_bound.
- EncodedIndex.DescriptorIndex.EnsureFlat: does not model the file and extension vectors as sorted sequences, but as the runs of entries with equal keys.
- FindAllFileNames, FindAllExtensionNumbers, FindAllPackageNames and FindAllMessageNames: enumerations that would only add easy members.
- DescriptorPoolDatabase, whose pool is not part of this model.
- ChatCodec.InternalParse: does not model unknown fields, which end the parse with a result of their own, UTF-8 checks, or chunked input.
- C_Chat: the same code with the first field only.
- ThreadCache.CallersGetTheirOwn: does not model weak memory or the wrap-around of the 64-bit id counter; steps are sequentially consistent and numbers unbounded.
- SerialArenas.SerialArena.CleanupList: takes the pointer difference, undefined for odd sizes, as rounded towards zero.
- SerialArenas.SerialArena.CleanupBlock: takes the pointer difference, undefined for odd sizes, as rounded towards zero.
- SerialArenaCleanup.SkippedExactly: rests on that rounding; ComparisonSkipsExactly is the other reading.
- SerialArenaCleanup.CleanupOrderLength: rests on that rounding.
- SerialArenaCleanup.RunCleansUpInReverse: its only-if half rests on that rounding.
- SerialArenaCleanup.OddFirstBlockLosesCleanup: rests on that rounding.
- SerialArenas.SerialArena.AllocateNewBlock: does not model running out of memory or the overflow check of sizes.
- SerialArenas.SerialArena.AllocateFromExistingWithCleanup: does not model the time between taking a node and filling it; every caller fills it at once.
- Metrics collectors beyond their identity, the allocation sampler, ASAN hooks.
- The order of cleanups across the SerialArenas of different threads.
- ArenaLifetime.ThreadSafeArena.AddSerialArena: does not model the compare-and-swap loop, which is in ThreadCacheModel.
