# libosmium string table, mmap vector bookkeeping and output registry in Dafny

This project models three sequential parts of libosmium's infrastructure as
pure Dafny functions over immutable values and proves properties about them:

- **The PBF writer's string table** (`string_store.dfy`, `string_table.dfy`).
  - `StringStore` is a chunked, append-only arena of NUL-terminated strings. A
    chunk is modelled by its bytes (`string`). The chunk list is a `seq`, newest
    (front) chunk first.
  - The store's `const_iterator` is modelled step by step (`Cursor`, `Advance`,
    `Deref`). It is proved to yield the strings of each chunk in the order they
    were written, front chunk first.
  - `StringTable` puts a content-keyed index (`map<string, nat>`) over the
    store and hands out dense ids. Its 32-bit counter wraps explicitly.
- **The bookkeeping of `mmap_vector_base`** (`mmap_vector.dfy`).
  - The mapping is a `seq<T>` whose length is the capacity.
  - The element type's sentinel (`empty_value<T>()`) is a parameter.
  - The growth step is the constant 1024 * 1024.
- **The output format registry and the output thread's drain rule** (`output.dfy`).
  - `OutputFactory` is a map from an encoding (a value of an equality type)
    to a constructor (a function from the file to the output object).
  - `FileOutput::operator()` is a pure function over the FIFO list of payloads.

`common.dfy` holds the `Result`/`Option` types, which stand in for the
exceptions the library throws, and a sequence-flattening helper.

Two facts of the code shape the model:

- `StringStore::clear` keeps the front chunk, which is the newest one, and
  `StringStore::begin` starts there
  (include/osmium/io/detail/string_table.hpp:84, 168). So iteration runs
  newest chunk first. Insertion order is kept only within one chunk (see
  Findings).
- `clear` and a shrinking `resize` of `mmap_vector_base` only set `m_size`
  (include/osmium/index/detail/mmap_vector_base.hpp:132, 158). So a slot
  written earlier shows its old value when a later `resize` brings it back
  into view (`MmapVector.ClearThenResizeShowsOldValue`).

## Model

| member | source | states |
|---|---|---|
| StringStore.NextNul | include/osmium/io/detail/string_table.hpp:129 | the scan stops inside the chunk, at a NUL or at the chunk's end |
| StringStore.NextNulIsFirst | include/osmium/io/detail/string_table.hpp:129 | no byte the scan skips is a NUL, so it stops at the first terminator |
| StringStore.SplitJoin | include/osmium/io/detail/string_table.hpp:105-106 | scanning the bytes of a chunk filled with NUL-free strings, each followed by one NUL, recovers exactly those strings |
| StringStore.JoinSplit | include/osmium/io/detail/string_table.hpp:126-130 | every chunk that is empty or ends in NUL is exactly the layout of the strings scanned out of it |
| StringStore.SplitNulFree | include/osmium/io/detail/string_table.hpp:129 | no string scanned out of a chunk contains a NUL |
| StringStore.SplitAppend | include/osmium/io/detail/string_table.hpp:105-106 | appending a string and its NUL to a well-formed chunk adds exactly that string at the end of the chunk's scan |
| StringStore.New | include/osmium/io/detail/string_table.hpp:70-81 | a new store has exactly one chunk; it is empty and iteration yields nothing |
| StringStore.Clear | include/osmium/io/detail/string_table.hpp:83-86 | clear leaves a single empty chunk with the same chunk size, the same as a new store |
| StringStore.Add | include/osmium/io/detail/string_table.hpp:94-109 | the copy, then its NUL, ends the front chunk; a new chunk is put in front exactly when the front chunk has no room, and the copy then sits at offset 0; otherwise the old bytes stay as a prefix; older chunks are unchanged; total bytes grow by the length plus one; the returned pointer designates the string |
| StringStore.AddKeepsEarlierStrings | include/osmium/io/detail/string_table.hpp:105-108 | a pointer returned by an earlier add still designates the same string after any later add |
| StringStore.Advance | include/osmium/io/detail/string_table.hpp:126-140 | the iterator step stays valid and moves strictly forward: further into the chunk, or to the start of the next chunk, or to the end |
| StringStore.Deref | include/osmium/io/detail/string_table.hpp:156-160 | dereferencing a cursor reads the C string that starts there: NUL-free bytes of the chunk, ending at a NUL or at the chunk's end |
| StringStore.Begin | include/osmium/io/detail/string_table.hpp:164-169 | begin is a valid cursor |
| StringStore.ItemsFollowChunks | include/osmium/io/detail/string_table.hpp:126-173 | iterating from begin to end yields the strings of every chunk, chunk by chunk from the front (newest) chunk, each chunk in write order |
| StringStore.ItemsFromChunk | include/osmium/io/detail/string_table.hpp:126-140 | from a position inside a chunk the iterator yields the rest of that chunk's strings and then moves to the next chunk |
| StringStore.BeginIsEndIffEmpty | include/osmium/io/detail/string_table.hpp:164-169 | begin equals end exactly when the front chunk has no bytes, which is exactly when iteration yields nothing |
| StringStore.AddAppendsEntry | include/osmium/io/detail/string_table.hpp:94-109 | read oldest chunk first, the store gains the added string at its end, whichever chunk received it |
| StringStore.AddToNewChunkComesFirst | include/osmium/io/detail/string_table.hpp:99-103 | when the front chunk has no room, the new front chunk makes the added string the first one iteration yields |
| StringStore.AddToFrontChunkFollowsIt | include/osmium/io/detail/string_table.hpp:99-106 | when the front chunk has room, iteration yields the added string right after the strings already in the front chunk |
| StringStore.SingleChunkIteratesInOrder | include/osmium/io/detail/string_table.hpp:164-173 | with a single chunk, iteration order is insertion order |
| StringTable.IndexedIffStored | include/osmium/io/detail/string_table.hpp:208-210 | while ids agree with positions, a string is indexed exactly when it is stored after the seed |
| StringTable.IdIsFirstPosition | include/osmium/io/detail/string_table.hpp:232-246 | the id of an indexed string is its first position after the seed |
| StringTable.IdsMatchAppend | include/osmium/io/detail/string_table.hpp:238-239 | storing a new string at the end under the next id keeps ids in agreement with positions |
| StringTable.New | include/osmium/io/detail/string_table.hpp:214-219 | a new table satisfies the table invariant, has size 1 and an empty index |
| StringTable.NewIteratesSeed | include/osmium/io/detail/string_table.hpp:214-219 | a new table iterates exactly the empty string |
| StringTable.Clear | include/osmium/io/detail/string_table.hpp:221-226 | clear gives back exactly a new table with the same limit: size 1, empty index, the invariant restored |
| StringTable.Add | include/osmium/io/detail/string_table.hpp:232-246 | a known string returns its id and changes nothing; a new one is copied into the store, the counter is incremented modulo 2^32 and the string is indexed under the new counter, every other id is kept, and the call fails exactly when the new counter exceeds the limit |
| StringTable.AddKeepsHealthy | include/osmium/io/detail/string_table.hpp:232-246 | with room left, add keeps the invariant; a new string is appended oldest-first and grows the size by one, a known one changes nothing; the returned id is the string's first position after the seed |
| StringTable.AddFreshKeepsHealthy | include/osmium/io/detail/string_table.hpp:238-245 | a new string gets id counter + 1 and is appended oldest-first; the size grows by one and the invariant holds |
| StringTable.AddIsIdempotent | include/osmium/io/detail/string_table.hpp:233-236 | adding the same string again returns the same id and leaves the table as it was |
| StringTable.AddOverflowKeepsString | include/osmium/io/detail/string_table.hpp:238-243 | on overflow the error is thrown, but the string stays stored and indexed under max + 1, the size still moves on, and adding it again returns that id without error |
| StringTable.EmptyStringGetsFreshId | include/osmium/io/detail/string_table.hpp:214-219 | the seeded empty string is not indexed: adding "" to a new table issues id 1, stores "" a second time and makes the size 2 |
| StringTable.CounterWrapsWithoutLimit | include/osmium/io/detail/string_table.hpp:239 | with a limit of 2^32 - 1 the 32-bit counter wraps and a new string gets id 0, the id of the seed |
| StringTable.DedupContents | include/osmium/io/detail/string_table.hpp:233-236 | the distinct strings of a list: every string of the list exactly once, and nothing else |
| StringTable.AddAllFromEmpty | include/osmium/io/detail/string_table.hpp:232-246 | within the limit, adding a list to a table that has issued no id succeeds; read oldest first, the table holds the seed and then the list's distinct strings in first-occurrence order; the size is their number plus one |
| StringTable.IdsFollowFirstInsertion | include/osmium/io/detail/string_table.hpp:232-246 | after such a run, the i-th distinct string of the list has id i + 1 |
| StringTable.IdsAreFirstInsertionOrder | include/osmium/io/detail/string_table.hpp:214-246 | the same for a new table: ids are dense and issued in first-insertion order |
| StringTable.CorrectedIterationFollowsIds | include/osmium/io/detail/string_table.hpp:248-254 | read oldest chunk first, the store lists the seed and then the string with id i at position i |
| StringTable.SingleChunkIterationFollowsIds | include/osmium/io/detail/string_table.hpp:248-254 | while the store has one chunk, the table's own iteration lists the strings in id order |
| StringTable.FirstAddSharesSeedChunk | include/osmium/io/detail/string_table.hpp:238-239 | the first string added after the seed, if it fits, lands in the seed's chunk under id 1 |
| StringTable.SecondAddStartsChunk | include/osmium/io/detail/string_table.hpp:238-239 | a new string that does not fit the front chunk gets the next id, yet the table's iteration yields it first |
| StringTable.TwoChunksBreakIdOrder | include/osmium/io/detail/string_table.hpp:248-254 | two strings too long to share a chunk get ids 1 and 2, yet iteration yields the second, then the seed, then the first |
| StringTable.IterationOrderCounterexample | include/osmium/io/detail/string_table.hpp:248-254 | concrete case: two strings of 600000 characters added to a new table |
| MmapVector.Anonymous | include/osmium/index/detail/mmap_vector_base.hpp:74-78 | the anonymous vector has the requested capacity, size 0, and every slot is the sentinel |
| MmapVector.AnonymousDefault | include/osmium/index/detail/mmap_vector_base.hpp:49 | the default capacity is one growth step of 1024 * 1024 slots |
| MmapVector.ShrinkToFit | include/osmium/index/detail/mmap_vector_base.hpp:135-139 | the size only decreases and slots are untouched; afterwards the size is 0 or the last element is not the sentinel; every dropped element was the sentinel |
| MmapVector.ShrinkToFitLoop | include/osmium/index/detail/mmap_vector_base.hpp:135-139 | the loop as written has the same properties and computes the same vector as ShrinkToFit |
| MmapVector.ShrinkToFitIdempotent | include/osmium/index/detail/mmap_vector_base.hpp:135-139 | shrinking twice is shrinking once |
| MmapVector.ShrinkToFitKeepsSentinelTail | include/osmium/index/detail/mmap_vector_base.hpp:135-139 | if the slots past the size were all sentinels, they still are after shrinking |
| MmapVector.FromFile | include/osmium/index/detail/mmap_vector_base.hpp:66-72 | the file vector keeps the file's capacity and the slots before its size; its size is at most the given size; the elements it drops were sentinels; everything past its size is the sentinel |
| MmapVector.Get | include/osmium/index/detail/mmap_vector_base.hpp:114-117 | element access inside the vector returns the n-th element |
| MmapVector.Set | include/osmium/index/detail/mmap_vector_base.hpp:119-122 | writing element n changes that element only, with size and capacity kept |
| MmapVector.At | include/osmium/index/detail/mmap_vector_base.hpp:124-129 | at fails with out-of-range exactly when n is not below the size, and otherwise returns the n-th element |
| MmapVector.AtAgreesWithGet | include/osmium/index/detail/mmap_vector_base.hpp:114-129 | inside the vector, at and element access agree |
| MmapVector.Clear | include/osmium/index/detail/mmap_vector_base.hpp:131-133 | clear empties the vector and leaves every slot and the capacity alone |
| MmapVector.Reserve | include/osmium/index/detail/mmap_vector_base.hpp:146-152 | reserve never shrinks; it grows to exactly n when asked for more; old slots are unchanged and new slots are sentinels; the size is kept |
| MmapVector.Resize | include/osmium/index/detail/mmap_vector_base.hpp:154-159 | the size becomes n; past the capacity the mapping grows to n plus one growth step, otherwise the capacity is kept; old slots are unchanged and new slots are sentinels |
| MmapVector.ResizeKeepsPrefix | include/osmium/index/detail/mmap_vector_base.hpp:154-159 | resize keeps the first min(n, size) elements |
| MmapVector.ResizeUpKeepsSentinelTail | include/osmium/index/detail/mmap_vector_base.hpp:146-159 | growing a vector whose unused slots are sentinels shows sentinels as the new elements and keeps the unused slots sentinels |
| MmapVector.PushBack | include/osmium/index/detail/mmap_vector_base.hpp:141-144 | push_back appends the value to the elements, grows the size by one, leaves every other old slot unchanged, grows the capacity (by one plus one growth step) only when the vector was full, and fills the slots so added, other than the one written, with the sentinel |
| MmapVector.AtAfterPushBack | include/osmium/index/detail/mmap_vector_base.hpp:141-144 | after push_back, at finds the value at the old size, earlier elements where they were, and nothing past it |
| MmapVector.PushBackKeepsSentinelTail | include/osmium/index/detail/mmap_vector_base.hpp:141-159 | push_back keeps the unused slots sentinels |
| MmapVector.ClearThenResizeShowsSlots | include/osmium/index/detail/mmap_vector_base.hpp:131-159 | resizing a cleared vector within its capacity keeps the capacity and shows exactly the old slots, so clear resets only the size |
| MmapVector.ClearThenResizeShowsOldValue | include/osmium/index/detail/mmap_vector_base.hpp:131-159 | neither clear nor a shrinking resize resets slots, so a pushed value reappears after clear and resize(1) |
| Output.Empty | include/osmium/io/output.hpp:112-114 | the registry starts with nothing registered |
| Output.FirstClash | include/osmium/io/output.hpp:124-127 | the first encoding of the list that is already registered or repeats an earlier one, or the list's length if there is none |
| Output.Register | include/osmium/io/output.hpp:123-130 | registration succeeds exactly when no encoding clashes; the encodings before the first clash are added with the new constructor; existing entries are kept and nothing after the clash is inserted |
| Output.RegisterFromMeetsClash | include/osmium/io/output.hpp:124-129 | the insertion loop, run from any point, stops exactly at the first clash and has inserted everything before it |
| Output.RegisterThenCreate | include/osmium/io/output.hpp:123-145 | after a successful registration, every listed encoding creates its output with the new constructor |
| Output.RegisterFailureKeepsEarlier | include/osmium/io/output.hpp:124-127 | a failed registration is not rolled back, and the clashing entry keeps its old constructor |
| Output.RegisterRepeatFails | include/osmium/io/output.hpp:124-127 | a list naming an encoding twice fails on the repeat but leaves the encoding registered |
| Output.Unregister | include/osmium/io/output.hpp:133-135 | unregister returns true exactly when the encoding was registered; it removes that encoding and keeps all other entries |
| Output.CreateOutput | include/osmium/io/output.hpp:137-145 | create_output applies the constructor registered for the file's encoding, and fails with encoding-not-supported exactly when none is registered |
| Output.UnregisterThenCreate | include/osmium/io/output.hpp:133-145 | after unregistering an encoding, creating an output for it fails |
| Output.RegisterUnregisterRoundTrip | include/osmium/io/output.hpp:123-135 | registering one new encoding and unregistering it restores the registry |
| Output.FirstEmpty | include/osmium/io/output.hpp:169 | the position of the first empty payload, or the queue's length when there is none |
| Output.Drain | include/osmium/io/output.hpp:161-170 | the thread writes the concatenation, in queue order, of the payloads up to and including the first empty one; it consumes nothing after that; it stops exactly when an empty payload exists |
| Output.DrainFromWrites | include/osmium/io/output.hpp:165-169 | the loop from any position writes the payloads from there up to the first empty one |
| Output.ClosedQueueWritesAll | include/osmium/io/output.hpp:161-170 | for a closed stream (non-empty payloads, then the empty end marker, then anything), exactly the payloads before the marker are written |
| Output.OpenQueueKeepsWaiting | include/osmium/io/output.hpp:165-169 | with no end marker yet, every payload is written and the thread keeps waiting |

## Left out

- `TypedMemoryMapping`, `mmap`, `mremap`, `munmap`, `close()`, `data()` and the page rounding of mappings are operating-system calls. The mapping is a `seq<T>`, so pointer relocation on growth is not modelled.
- The file constructor of `mmap_vector_base` takes the file's mapped contents as a parameter. The file descriptor and the file-growing calls are not modelled.
- `size_t` overflow in `resize(n + 1024 * 1024)` and in `push_back` is not modelled, because sizes are unbounded naturals.
- The `begin`/`end` pointer iterators of `mmap_vector_base` are covered by `MmapVector.Contents`.
- `Writer`, `std::thread`, `std::future`, the blocking queue, back-pressure and `set_thread_name` are concurrency. Only the sequential drain rule is modelled. A queue with no empty payload means the thread is still waiting.
- `reliable_write`, `File::open_for_output` and `fd()` are I/O. Writing is modelled as appending the payload to the written bytes.
- The concrete output encodings, `Output::set_header`, `handle_buffer`, `close` and the buffer contents are opaque. A constructor is any function from the file to an output value.
- The output queue argument of the registered constructors is not modelled.
- The `OutputFactory::instance()` singleton is modelled as an explicit registry value.
- `max_uncompressed_blob_size` comes from a header that is not part of this model. It is the table's `maxEntries` field, a parameter of the constructor.
- The table invariant and the lemmas built on it require `maxEntries + 1 < 2^32`, so that the limit check fires before the 32-bit counter wraps. `StringTable.CounterWrapsWithoutLimit` covers the other case.
- `std::string::capacity()` after `reserve(chunk_size)` is taken to be exactly the chunk size. The library may allocate more.
- StringStore.Add requires `|s| + 1 <= chunk_size`, matching the `assert` in `add`. A longer string is undefined behaviour in release builds and is not modelled.
- StringTable.Add requires the same of the string it passes on. It also requires the string to be NUL-free, because a C string ends at its first NUL.
- The string table's `std::map` compares with `strcmp`. It is modelled as a map keyed by string contents, which gives the same lookups for NUL-free strings.
- `const_iterator::operator++(int)` and `operator!=` are derived from `operator++` and `operator==` and are not modelled separately.
- `StringStore::const_iterator` equality compares chunk and position. `Cursor` values compare the same way.
- StringStore.ChunkSize, StringStore.ChunkCount and StringStore.UsedBytesInLastChunk are plain getters, used in the contracts of `New`, `Clear` and `Add`.
- StringTable.Size is a plain 32-bit getter, used in the contracts of the table lemmas.
- StringStore.ItemsFrom and StringStore.Items are the begin-to-end traversal: `Deref` at each cursor, then `Advance`. They carry no contract of their own. StringStore.ItemsFollowChunks and StringStore.ItemsFromChunk state what they yield.
- StringTable.Items is the table's `begin`/`end` pair, which hands over the store's iterators. StringTable.SingleChunkIterationFollowsIds and StringTable.TwoChunksBreakIdOrder state what it yields.
- MmapVector.Capacity and MmapVector.Empty are plain getters for `capacity()` and `empty()`. They are used in the contracts of the vector operations.
- MmapVector.FromFile requires `size <= |mapped|`, matching the `assert` in the file constructor. A larger size is undefined behaviour in release builds and is not modelled.
- Output.RegisterFrom is the insertion loop of `register_output_format`. It carries no contract of its own; Output.RegisterFromMeetsClash states where it stops and what it inserts.
- Output.DrainFrom is the do-while loop of `FileOutput::operator()`. It carries no contract of its own; Output.DrainFromWrites states what it writes and consumes.

## Findings

| source | as written | input that shows it | evidently intended | confidence | as-written member | corrected member |
|---|---|---|---|---|---|---|
| include/osmium/io/detail/string_table.hpp:164-173 | `begin()` starts at the front chunk, and `add_chunk` puts every new chunk in front, so the table's iteration visits the newest chunk first | a new table, then add two strings of 600000 characters: they get ids 1 and 2, but iteration yields the second, then "", then the first | iteration yields the strings in id order (insertion order), so that position i holds the string with id i | medium, not executed | StringTable.IterationOrderCounterexample | StringTable.AddAllFromEmpty |
