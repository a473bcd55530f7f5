# cached_file_view in Dafny

A model of the reference-counted chunk cache of the Rust crate
`cached_file_view`, with proofs about it. A `FileView` wraps an open file. `FileView::read(start..end)` covers the range with
`CHUNK_SIZE` (0x8000-byte) chunks, each starting at a multiple of
`CHUNK_SIZE`. It keeps every chunk in a table shared by all clones of the
view, keyed by the chunk's file offset and carrying a reader count. A hit
takes one more reader on the cached chunk; a miss reads the chunk from the
file into a zero-filled buffer and inserts it with one reader. The returned
`FileViewMapping` holds the chunks plus the offsets that clip the first and
the last one; its iterator hands out the clipped slices and `to_vec`
concatenates them. Dropping a mapping takes one reader from each of its
chunks and evicts the chunks whose count reaches zero. `read_raw` validates
the range the same way and reads the bytes directly, bypassing the table.

Modules, one per concern of `src/lib.rs`:

- `Chunks` (`chunks.dfy`): `CHUNK_SIZE`, the aligned base address, the
  address sequence the read loop walks, the content of a filled chunk, and
  the `FileViewChunk` / `FileViewChunkWrapper` records.
- `ChunkTable` (`chunk_table.dfy`): the table as a `map<nat,
  FileViewChunkWrapper>`, with acquire and release as functions on it. The
  release is given two ways: one entry at a time, and in the source's two
  loops (decrement every entry and collect the stale offsets, then remove
  them). A lemma proves the two agree.
- `Mapping` (`mapping.dfy`): the mapping record, the slice bounds the
  iterator picks, the iterator as a class with a mutable `index`, `to_vec`
  as a loop, and the proof that the stitched slices are the file's bytes
  `[start, end)`.
- `FileViewModel` (`file_view.dfy`): `FileViewInner` (the file's bytes, its
  cursor and the chunk table, updated in place) and `FileView` (the handle
  with its length). It holds `read`, `read_raw` and the release a dropped
  mapping runs. Ghost state records the mappings still alive, and the view's
  invariant ties every reader count to them.
- `Scenarios` (`scenarios.dfy`): the expectations of `tests/lib.rs` over the
  twelve-byte file "hello world!", and a read followed by the release of its
  mapping.

The file is modelled as its bytes, fixed while the view exists, plus a read
cursor. The platform's `usize::MAX` is a parameter of the view.

## Model

| member | source | states |
|---|---|---|
| Chunks.BaseAddress | src/lib.rs:153-155 | the base address is a multiple of `CHUNK_SIZE` and the largest one at or below `start`, so `start_offset` lies in `[0, CHUNK_SIZE)` |
| Chunks.ChunkAddresses | src/lib.rs:157-183 | the addresses the read loop visits from `address`: it always takes the current one, then moves on by `CHUNK_SIZE` while the next one is below `end`; its shape is stated by `ChunkAddressesShape` |
| Chunks.ChunkFill | src/lib.rs:166-167 | the `CHUNK_SIZE` bytes of a chunk read at `address`: the file's byte where there is one, zero past the end of the file |
| Chunks.ChunkAddressesShape | src/lib.rs:157-183 | the loop visits `address + i*CHUNK_SIZE` for consecutive `i`; every address after the first is below `end`; it stops at the first address whose successor reaches `end` |
| Chunks.AddressesShape | src/lib.rs:153-183 | a read's addresses are aligned, strictly increasing and distinct; they start at the base address; the last one is at most `end` and within `CHUNK_SIZE` of it |
| Chunks.AddressesExactly | src/lib.rs:155-183 | `x` is acquired iff it is aligned, at least the base, and either below `end` or the base itself, so at least one chunk is acquired |
| Chunks.AddressStep | src/lib.rs:178-182 | one loop pass: the address is aligned and at most `end`; the loop continues iff `address + CHUNK_SIZE < end`, and then the next address is `address + CHUNK_SIZE` |
| Chunks.ReadFillsChunk | src/lib.rs:166-167 | a zero-filled `CHUNK_SIZE` buffer whose front holds the file bytes from `address` to the end of the file equals the chunk's fill: the file byte where there is one, zero past the end |
| Chunks.FillSlice | src/lib.rs:166-167 | a slice of a filled chunk inside the file is the file's bytes at the same positions |
| ChunkTable.Acquire | src/lib.rs:160-177 | one pass of the read loop on the table: a hit gains one reader and keeps its chunk; a miss is inserted with one reader and the chunk filled at the address |
| ChunkTable.AcquireAll | src/lib.rs:159-183 | the passes of the read loop over `addrs`, in order; characterised entry by entry by `AcquireAllEntries` |
| ChunkTable.AcquireAllEntries | src/lib.rs:159-177 | acquiring a read's distinct addresses adds exactly the missing ones, each with one reader and its filled chunk; every cached one gains exactly one reader and keeps its chunk; every other entry is unchanged |
| ChunkTable.Release | src/lib.rs:128-135 | dropping one reader of the entry at an offset: the entry is removed when its count was 1, otherwise its count goes down by one |
| ChunkTable.ReleaseAll | src/lib.rs:124-137 | releasing a mapping's offsets removes exactly the entries whose count was 1; the other released entries lose exactly one reader; entries outside the mapping are unchanged |
| ChunkTable.Decremented | src/lib.rs:127-129 | the table after the first release loop: every entry the offsets name has one reader fewer, nothing is removed yet |
| ChunkTable.StaleOffsets | src/lib.rs:126-133 | the offsets the first release loop collects, in order: those whose count drops to zero; characterised by `StaleOffsetsMembers` |
| ChunkTable.RemoveAll | src/lib.rs:134-136 | the table after the second release loop: the given keys removed, every other entry as it was |
| ChunkTable.StaleOffsetsMembers | src/lib.rs:126-133 | the first release loop collects exactly the mapping's offsets whose count was 1 |
| ChunkTable.DecrementStep | src/lib.rs:127-133 | one pass of the first release loop: the entry is present (the `unwrap` succeeds) and still has its old count; it loses one reader; its offset is collected iff the count reaches zero |
| ChunkTable.StaleOffsetsDistinct | src/lib.rs:126-133 | the collected stale offsets name each entry once |
| ChunkTable.StaleRemoveStep | src/lib.rs:134-136 | every collected offset is still in the table when the second loop removes it, so that `unwrap` succeeds too |
| ChunkTable.TwoPhaseRelease | src/lib.rs:124-137 | decrementing every entry and then removing the collected offsets gives the same table as releasing the offsets one at a time |
| ChunkTable.AcquireAllWellKeyed | src/lib.rs:160-177 | acquiring aligned addresses keeps every key aligned, every count positive and every chunk's offset equal to its key |
| ChunkTable.ReleaseAllWellKeyed | src/lib.rs:129-135 | releasing keeps the table well keyed: no entry with zero readers survives |
| ChunkTable.AcquireReleaseRoundTrip | src/lib.rs:124-177 | releasing the addresses just acquired gives back exactly the table from before the read |
| Mapping.SliceBounds | src/lib.rs:71-80 | the bounds the iterator cuts chunk `index` at: the first chunk from `start_offset`, the last up to `end_offset`, every other chunk whole |
| Mapping.MappingFor | src/lib.rs:185-193 | a read's mapping holds at least one chunk, and every slice the iterator cuts lies inside its chunk's data, so `next` never panics |
| Mapping.MappingForShape | src/lib.rs:148-193 | a read's mapping holds the chunks at the read's addresses; `start_offset < CHUNK_SIZE` and `end_offset <= CHUNK_SIZE`; the first chunk's offset plus `start_offset` is `start`; the last chunk's offset plus `end_offset` is `end`; `length` is `end - start` |
| Mapping.MappingForIsMappingOf | src/lib.rs:185-193 | a read's mapping records its own range: rebuilding it from its start and length gives the same mapping |
| Mapping.MappingOffsetsDistinct | src/lib.rs:155-183 | a mapping names each chunk once, and every chunk offset is aligned |
| Mapping.SliceIsFileRange | src/lib.rs:67-85 | slice `i` of a read's mapping is the file's bytes between two positions inside `[start, end)`; the first begins at `start`, the last ends at `end`, and each slice ends where the next begins |
| Mapping.ReadSlicesFollowFile | src/lib.rs:67-85 | the same holds for every prefix of a read's mapping's slices |
| Mapping.StitchedPrefixContiguous | src/lib.rs:96-102 | concatenating slices that follow the file one after the other gives the file's bytes from the first slice's start to the last slice's end |
| Mapping.ReadStitchesFileRange | src/lib.rs:96-102 | the stitched slices of a read's mapping are exactly the file's bytes `[start, end)`, and their number is the mapping's `length` |
| Mapping.FileViewMappingChunks.constructor | src/lib.rs:89-94 | `chunks()` starts at the first chunk of the mapping |
| Mapping.FileViewMappingChunks.Next | src/lib.rs:67-85 | `next` yields the clipped slice of chunk `index` while chunks remain and `None` afterwards; the index moves on by one on every call |
| Mapping.ToVec | src/lib.rs:96-102 | `to_vec` returns the concatenation of all clipped slices in order |
| FileViewModel.RemoveFirst | src/lib.rs:217-224 | dropping one mapping removes one occurrence of it from the live mappings and nothing else |
| FileViewModel.AcquireKeepsCounts | src/lib.rs:159-177 | after a read, each entry's reader count is still the number of live mappings, the new one included, that hold the chunk |
| FileViewModel.ReleaseKeepsCounts | src/lib.rs:124-137 | every chunk of a live mapping is in the table with a reader; after the release, each count is the number of mappings still live that hold the chunk |
| FileViewModel.NoMappingsNoChunks | src/lib.rs:129-135 | once no mapping is live the table is empty: nothing is cached without a reader |
| FileViewModel.AcquireRangeWellKeyed | src/lib.rs:155-177 | the read loop keeps the table well keyed |
| FileViewModel.FileViewInner.constructor | src/lib.rs:117-120 | a new inner state holds the file with an empty table and no live mapping; the cursor starts at 0, where the source keeps the position of the `File` it is given, which no result can show because every read seeks to an absolute position first |
| FileViewModel.FileViewInner.Seek | src/lib.rs:158 | an absolute seek puts the cursor at the position |
| FileViewModel.FileViewInner.SeekForward | src/lib.rs:161 | a relative seek moves the cursor on by the delta |
| FileViewModel.FileViewInner.ReadInto | src/lib.rs:167 | a read fills the front of the buffer with the file's bytes at the cursor, up to the buffer's length or the end of the file, and advances the cursor by their number; the rest of the buffer is kept |
| FileViewModel.FileViewInner.AcquireChunk | src/lib.rs:160-177 | on a hit the entry gains one reader, its chunk is reused and the cursor skips `CHUNK_SIZE` without a read; on a miss the filled chunk is inserted with one reader; either way the chunk returned is the file's chunk at the address |
| FileViewModel.FileViewInner.AcquireChunks | src/lib.rs:154-183 | the loop returns the filled chunks at exactly the read's addresses, in order; the table becomes the acquire of those addresses; `end_offset` is `end` minus the last address; the table stays well keyed |
| FileViewModel.FileViewInner.AcquireRange | src/lib.rs:153-193 | the validated part of `read` returns the mapping of the range, with the table acquired as above |
| FileViewModel.FileViewInner.ReleaseChunks | src/lib.rs:126-136 | the two release loops leave the table equal to releasing the mapping's offsets one at a time |
| FileViewModel.FileViewInner.ReadExact | src/lib.rs:210-212 | `read_exact` inside the file fills the whole buffer with the file's bytes at the cursor and advances the cursor by its length |
| FileViewModel.FileView.constructor | src/lib.rs:114-122 | `new` records the file's length over an empty table |
| FileViewModel.FileView.Read | src/lib.rs:139-194 | `OutOfBoundsError` iff `end > length`, whatever `start`; otherwise `RangeTooBigError` iff `end - start > usize::MAX`; on either error nothing changes; on success the result is the range's mapping, the table is the acquire of the range's addresses, the mapping joins the live ones, and the reader-count invariant still holds |
| FileViewModel.FileView.ReadRaw | src/lib.rs:196-214 | the same two errors in the same order, the first whatever `start`; on success exactly the file's bytes `[start, end)`; the chunk table is never touched |
| FileViewModel.FileView.HandleDroppedMapping | src/lib.rs:124-137 | every chunk of the dropped mapping is present with a reader; the table becomes the release of its offsets; the mapping leaves the live ones; the reader-count invariant still holds |
| Scenarios.ReadToVec | src/lib.rs:139-194 | a valid read followed by `to_vec` returns the file's bytes `[start, end)` |
| Scenarios.ReadThenRelease | src/lib.rs:124-194 | a read followed by dropping its mapping restores the table exactly and leaves the same live mappings |
| Scenarios.Basic | tests/lib.rs:9-21 | two views of "hello world!" read `0..12` and `3..12` and get the expected bytes; their shared chunk has two readers; after both mappings are dropped the table is empty |
| Scenarios.ReadOne | tests/lib.rs:23-35 | `read(0..12).to_vec()` is "hello world!" and `read(11..12).to_vec()` is "!" |
| Scenarios.ReadPastEnd | tests/lib.rs:37-59 | `read(0..13)` and `read(10..13)` fail with `OutOfBoundsError` |
| Scenarios.ReadReversedPastEnd | src/lib.rs:145-146 | a reversed range that ends past the file, `20..13`, fails with `OutOfBoundsError` in both `read` and `read_raw`, before its length is computed |

## Left out

- Thread sharing through `Arc<Mutex<..>>` and `Clone`: the lock makes each operation atomic, so the model is one sequential object; a clone of a view is the same object.
- Real file I/O: the file is a fixed byte sequence, and `File::metadata` in `new` cannot fail, so `new` has no `IOError` path.
- FileViewModel.FileViewInner.ReadInto: assumes the system delivers every byte up to the end of the file. The source ignores the count `read` returns, and a short read before the end of the file would leave the cursor behind for the following chunks.
- FileViewModel.FileView.Read: the `IOError` returns of the seeks and reads inside the loop are not modelled. In the source they leave the counts already taken in the table with no rollback, so a table-unchanged promise would not hold for them.
- FileViewModel.FileView.ReadRaw: the `IOError` of `seek` or `read_exact` is not modelled; inside the file every read is taken to succeed.
- FileViewModel.FileView.Read: requires `start <= end` when the range ends inside the file; the source's `u64` subtraction of the range's length underflows then. A range ending past the file is handled whatever its start.
- FileViewModel.FileView.ReadRaw: requires `start <= end` when the range ends inside the file, for the same reason.
- Integer widths: offsets and counts are unbounded naturals. The `u64` address increment and the `usize` casts cannot overflow for a file shorter than `2^64 - CHUNK_SIZE` bytes; `usize::MAX` is the parameter `usizeMax`.
- Rust drop mechanics: dropping the last clone of a mapping is the explicit call `HandleDroppedMapping`, made once per mapping that is live.
- The mapping's back-reference to its view is not part of the mapping value.
- The `DEBUG` printing, the `fmt::Debug` impls and the `From<io::Error>` conversion: they do not affect the table or the bytes.
- `test_huge` in `tests/lib.rs`: it needs an external file whose contents are not part of this model.
