/**
 The file view itself: `FileViewInner` (the open file with its read cursor and
 the chunk table) and `FileView` (the public handle with its fixed length),
 with `read`, `read_raw` and the release a dropped mapping performs.

 The file is its contents, fixed for the life of the view, plus a cursor. The
 view also carries, as ghost state, the mappings that are still alive; the
 table's reader counts are tied to them.
 */
module FileViewModel {
  import opened Chunks
  import opened ChunkTable
  import opened Mapping

  datatype FileViewError = IOError | OutOfBoundsError | RangeTooBigError

  datatype Result<T> = Ok(value: T) | Err(error: FileViewError)

  /** Number of mappings in `live` that hold the chunk at `address`. */
  function Holders(live: seq<FileViewMapping>, address: nat): nat {
    if live == [] then 0
    else (if address in Offsets(live[0]) then 1 else 0) + Holders(live[1..], address)
  }

  /** A new mapping adds one holder to each of its own chunks and none elsewhere. */
  lemma {:induction false} HoldersAppend(live: seq<FileViewMapping>, m: FileViewMapping, address: nat)
    ensures Holders(live + [m], address) == Holders(live, address) + (if address in Offsets(m) then 1 else 0)
    decreases |live|
  {
    if live != [] {
      assert (live + [m])[1..] == live[1..] + [m];
      HoldersAppend(live[1..], m, address);
    }
  }

  /** `live` without its first occurrence of `m`. */
  function RemoveFirst(live: seq<FileViewMapping>, m: FileViewMapping): (r: seq<FileViewMapping>)
    requires m in live
    ensures multiset(r) == multiset(live) - multiset{m}
    ensures forall x :: x in r ==> x in live
  {
    assert live == [live[0]] + live[1..];
    if live[0] == m then live[1..]
    else [live[0]] + RemoveFirst(live[1..], m)
  }

  /** Dropping a mapping takes one holder from each of its chunks and none
      elsewhere. */
  lemma {:induction false} HoldersRemoveFirst(live: seq<FileViewMapping>, m: FileViewMapping, address: nat)
    requires m in live
    ensures Holders(live, address) == Holders(RemoveFirst(live, m), address) + (if address in Offsets(m) then 1 else 0)
    decreases |live|
  {
    if live[0] != m {
      var rest := RemoveFirst(live[1..], m);
      assert ([live[0]] + rest)[1..] == rest;
      HoldersRemoveFirst(live[1..], m, address);
    }
  }

  /** The reader count of every entry is the number of live mappings holding
      it, and a chunk some live mapping holds is in the table. */
  ghost predicate CountsMatch(t: Table, live: seq<FileViewMapping>) {
    && (forall k :: k in t ==> t[k].readers == Holders(live, k))
    && (forall k :: Holders(live, k) > 0 ==> k in t)
  }

  /** Once no mapping is alive the table is empty: no chunk is kept that no
      mapping reads. */
  lemma NoMappingsNoChunks(t: Table, file: seq<byte>)
    requires WellKeyed(t, file) && CountsMatch(t, [])
    ensures t == map[]
  {
    forall k
      ensures k !in t
    {
      assert Holders([], k) == 0;
    }
    assert t.Keys == {};
  }

  /** A successful read keeps the counts right: the acquired table against the
      old mappings plus the new one. */
  lemma AcquireKeepsCounts(t: Table, file: seq<byte>, live: seq<FileViewMapping>, m: FileViewMapping)
    requires CountsMatch(t, live)
    requires Distinct(Offsets(m))
    ensures CountsMatch(AcquireAll(t, file, Offsets(m)), live + [m])
  {
    AcquireAllEntries(t, file, Offsets(m));
    forall k
      ensures Holders(live + [m], k) == Holders(live, k) + (if k in Offsets(m) then 1 else 0)
    {
      HoldersAppend(live, m, k);
    }
  }

  /** Releasing a live mapping keeps the counts right: the released table
      against the mappings that remain. */
  lemma ReleaseKeepsCounts(t: Table, live: seq<FileViewMapping>, m: FileViewMapping)
    requires CountsMatch(t, live)
    requires m in live
    requires Distinct(Offsets(m))
    ensures forall k :: k in Offsets(m) ==> k in t && t[k].readers > 0
    ensures CountsMatch(ReleaseAll(t, Offsets(m)), RemoveFirst(live, m))
  {
    var rest := RemoveFirst(live, m);
    forall k
      ensures Holders(live, k) == Holders(rest, k) + (if k in Offsets(m) then 1 else 0)
    {
      HoldersRemoveFirst(live, m, k);
    }
  }

  /** One more pass of the read loop over distinct addresses extends the
      acquired prefix by one; the address it visits is cached exactly when it
      was before the loop. */
  lemma AcquirePrefixStep(t: Table, file: seq<byte>, addrs: seq<nat>, count: nat)
    requires Distinct(addrs) && count < |addrs|
    ensures addrs[count] in AcquireAll(t, file, addrs[..count]) <==> addrs[count] in t
    ensures AcquireAll(t, file, addrs[..count + 1]) == Acquire(AcquireAll(t, file, addrs[..count]), file, addrs[count])
    ensures ChunksAt(file, addrs[..count + 1]) == ChunksAt(file, addrs[..count]) + [FileViewChunk(addrs[count], ChunkFill(file, addrs[count]))]
  {
    assert addrs[..count + 1][..count] == addrs[..count];
    assert addrs[count] !in addrs[..count];
    AcquireAllEntries(t, file, addrs[..count]);
  }

  /** The same step for the addresses of a read of `[start, end)` over a well
      keyed table: a cached entry at the visited address holds its filled
      chunk. */
  lemma AcquireStep(t: Table, file: seq<byte>, start: nat, end: nat, count: nat)
    requires WellKeyed(t, file)
    requires start <= end && count < |Addresses(start, end)|
    ensures var addrs := Addresses(start, end);
            var acquired := AcquireAll(t, file, addrs[..count]);
            && (addrs[count] in acquired <==> addrs[count] in t)
            && (addrs[count] in acquired ==> acquired[addrs[count]].inner == FileViewChunk(addrs[count], ChunkFill(file, addrs[count])))
            && AcquireAll(t, file, addrs[..count + 1]) == Acquire(acquired, file, addrs[count])
            && ChunksAt(file, addrs[..count + 1]) == ChunksAt(file, addrs[..count]) + [FileViewChunk(addrs[count], ChunkFill(file, addrs[count]))]
  {
    var addrs := Addresses(start, end);
    AddressesShape(start, end);
    AcquirePrefixStep(t, file, addrs, count);
    AcquireAllEntries(t, file, addrs[..count]);
  }

  /** Acquiring the chunks of a read keeps the table well keyed. */
  lemma AcquireRangeWellKeyed(t: Table, file: seq<byte>, start: nat, end: nat)
    requires WellKeyed(t, file) && start <= end
    ensures WellKeyed(AcquireAll(t, file, Addresses(start, end)), file)
  {
    AddressesShape(start, end);
    AcquireAllWellKeyed(t, file, Addresses(start, end));
  }

  /** The shared state behind every clone of a view: the file (its contents
      and its cursor) and the chunk table. */
  class FileViewInner {
    /** The file's bytes; the file is not changed while the view exists. */
    const file: seq<byte>
    /** The file's read position. */
    var cursor: nat
    /** `buffers`: aligned offset to reference-counted chunk. */
    var buffers: Table
    /** The mappings read through this table and not yet dropped. */
    ghost var live: seq<FileViewMapping>

    ghost predicate Valid()
      reads this
    {
      && WellKeyed(buffers, file)
      && CountsMatch(buffers, live)
      && (forall m :: m in live ==> IsMappingOf(m, file))
    }

    constructor (file: seq<byte>)
      ensures Valid()
      ensures this.file == file && cursor == 0 && buffers == map[] && live == []
    {
      this.file := file;
      cursor := 0;
      buffers := map[];
      live := [];
    }

    /** `seek(SeekFrom::Start(position))`. */
    method Seek(position: nat)
      modifies this`cursor
      ensures cursor == position
    {
      cursor := position;
    }

    /** `seek(SeekFrom::Current(delta))` for a forward `delta`. */
    method SeekForward(delta: nat)
      modifies this`cursor
      ensures cursor == old(cursor) + delta
    {
      cursor := cursor + delta;
    }

    /** `read(buffer)`, under the assumption that the system delivers every
        byte up to end-of-file: fills the front of `buffer` with the bytes at
        the cursor, leaves the rest as it was, and moves the cursor past them. */
    method ReadInto(buffer: array<byte>) returns (count: nat)
      modifies this`cursor, buffer
      ensures count == if old(cursor) < |file| then Min(buffer.Length, |file| - old(cursor)) else 0
      ensures forall i :: 0 <= i < count ==> buffer[i] == file[old(cursor) + i]
      ensures forall i :: count <= i < buffer.Length ==> buffer[i] == old(buffer[i])
      ensures cursor == old(cursor) + count
    {
      count := if cursor < |file| then Min(buffer.Length, |file| - cursor) else 0;
      forall i | 0 <= i < count {
        buffer[i] := file[cursor + i];
      }
      cursor := cursor + count;
    }

    /** One pass of the read loop with the cursor at `address`: a cached chunk
        gains a reader and the cursor skips it; a missing one is read into a
        zero-filled buffer and inserted with one reader. */
    method AcquireChunk(address: nat) returns (chunk: FileViewChunk)
      requires cursor == address && address <= |file|
      requires address in buffers ==> buffers[address].inner == FileViewChunk(address, ChunkFill(file, address))
      modifies this
      ensures buffers == Acquire(old(buffers), file, address)
      ensures chunk == FileViewChunk(address, ChunkFill(file, address))
      ensures cursor == if address in old(buffers) then address + CHUNK_SIZE
                        else Min(address + CHUNK_SIZE, |file|)
      ensures live == old(live)
    {
      if address in buffers {
        SeekForward(CHUNK_SIZE);
        var wrapper := buffers[address];
        buffers := buffers[address := wrapper.(readers := wrapper.readers + 1)];
        chunk := wrapper.inner;
      } else {
        var buffer := new byte[CHUNK_SIZE](_ => 0);
        var count := ReadInto(buffer);
        ReadFillsChunk(file, address, buffer[..], count);
        chunk := FileViewChunk(address, buffer[..]);
        buffers := buffers[address := FileViewChunkWrapper(1, chunk)];
      }
    }

    /** The loop of `FileView::read`: walks the aligned chunk addresses from
        the one holding `start`, taking a reader on every cached chunk and
        reading every missing one; returns the chunks in order and the position
        of `end` in the last one. */
    method AcquireChunks(start: nat, end: nat) returns (chunks: seq<FileViewChunk>, endOffset: nat)
      requires start <= end <= |file|
      requires WellKeyed(buffers, file)
      modifies this
      ensures WellKeyed(buffers, file)
      ensures var addrs := Addresses(start, end);
              var last := addrs[|addrs| - 1];
              && chunks == ChunksAt(file, addrs)
              && endOffset == end - last
              && buffers == AcquireAll(old(buffers), file, addrs)
              && cursor == if last in old(buffers) then last + CHUNK_SIZE
                           else Min(last + CHUNK_SIZE, |file|)
      ensures live == old(live)
    {
      endOffset := 0;
      var baseAddress := BaseAddress(start);
      chunks := [];
      var address := baseAddress;
      ghost var addrs := Addresses(start, end);
      ghost var count := 0;
      AddressStep(start, end, 0);
      Seek(baseAddress);
      while true
        invariant count < |addrs| && address == addrs[count]
        invariant cursor == address
        invariant buffers == AcquireAll(old(buffers), file, addrs[..count])
        invariant chunks == ChunksAt(file, addrs[..count])
        invariant live == old(live)
        decreases |addrs| - count
      {
        AcquireStep(old(buffers), file, start, end, count);
        AddressStep(start, end, count);
        var chunk := AcquireChunk(address);
        chunks := chunks + [chunk];
        endOffset := end - address;
        address := address + CHUNK_SIZE;
        count := count + 1;
        if address >= end {
          break;
        }
      }
      assert addrs[..count] == addrs;
      AcquireRangeWellKeyed(old(buffers), file, start, end);
    }

    /** The body of `FileView::read` once the range is validated: the chunks
        of the range, acquired, and the mapping over them. */
    method AcquireRange(start: nat, end: nat) returns (mapping: FileViewMapping)
      requires start <= end <= |file|
      requires WellKeyed(buffers, file)
      modifies this
      ensures WellKeyed(buffers, file)
      ensures mapping == MappingFor(file, start, end)
      ensures var addrs := Addresses(start, end);
              var last := addrs[|addrs| - 1];
              && buffers == AcquireAll(old(buffers), file, addrs)
              && cursor == if last in old(buffers) then last + CHUNK_SIZE
                           else Min(last + CHUNK_SIZE, |file|)
      ensures live == old(live)
    {
      var startOffset := start % CHUNK_SIZE;
      var chunks, endOffset := AcquireChunks(start, end);
      mapping := FileViewMapping(startOffset, endOffset, end - start, chunks);
    }

    /** The two loops of `handle_dropped_mapping` on the table: first every
        chunk of `mapping` loses a reader and those left with none are
        collected, then the collected ones are removed. */
    method ReleaseChunks(mapping: FileViewMapping)
      requires Releasable(buffers, Offsets(mapping))
      modifies this`buffers
      ensures buffers == ReleaseAll(old(buffers), Offsets(mapping))
    {
      ghost var t := buffers;
      ghost var offsets := Offsets(mapping);
      assert offsets[..0] == [];
      var staleBufferIds: seq<nat> := [];
      var i := 0;
      while i < |mapping.buffers|
        invariant i <= |mapping.buffers|
        invariant buffers == Decremented(t, offsets[..i])
        invariant staleBufferIds == StaleOffsets(t, offsets[..i])
      {
        DecrementStep(t, offsets, i);
        var offset := mapping.buffers[i].offset;
        assert offset == offsets[i];
        var wrapper := buffers[offset];
        wrapper := wrapper.(readers := wrapper.readers - 1);
        buffers := buffers[offset := wrapper];
        assert wrapper.readers == t[offset].readers - 1;
        ghost var before := staleBufferIds;
        if wrapper.readers == 0 {
          staleBufferIds := staleBufferIds + [offset];
        }
        assert staleBufferIds == before + (if t[offsets[i]].readers == 1 then [offsets[i]] else []);
        assert staleBufferIds == StaleOffsets(t, offsets[..i + 1]);
        i := i + 1;
      }
      assert offsets[..i] == offsets;
      ghost var decremented := buffers;
      var j := 0;
      while j < |staleBufferIds|
        invariant j <= |staleBufferIds|
        invariant staleBufferIds == StaleOffsets(t, offsets) && decremented == Decremented(t, offsets)
        invariant buffers == RemoveAll(decremented, staleBufferIds[..j])
      {
        StaleRemoveStep(t, offsets, j);
        assert staleBufferIds[j] in buffers;
        buffers := buffers - {staleBufferIds[j]};
        j := j + 1;
      }
      assert staleBufferIds[..j] == staleBufferIds;
      TwoPhaseRelease(t, offsets);
    }

    /** `read_exact(buffer)` where the file holds every byte asked for: fills
        all of `buffer` from the cursor on. */
    method ReadExact(buffer: array<byte>)
      requires cursor + buffer.Length <= |file|
      modifies this`cursor, buffer
      ensures buffer[..] == file[old(cursor)..old(cursor) + buffer.Length]
      ensures cursor == old(cursor) + buffer.Length
    {
      forall i | 0 <= i < buffer.Length {
        buffer[i] := file[cursor + i];
      }
      cursor := cursor + buffer.Length;
    }
  }

  /** The public handle: the shared inner state and the file length taken at
      construction. `usizeMax` is the platform's `usize::MAX`. */
  class FileView {
    const inner: FileViewInner
    const length: nat
    const usizeMax: nat

    ghost predicate Valid()
      reads this, inner
    {
      inner.Valid() && |inner.file| == length
    }

    /** `FileView::new`: an empty table over a file of `|contents|` bytes. */
    constructor (contents: seq<byte>, usizeMax: nat)
      ensures Valid() && fresh(inner)
      ensures length == |contents| && this.usizeMax == usizeMax
      ensures inner.file == contents && inner.buffers == map[] && inner.live == []
    {
      inner := new FileViewInner(contents);
      length := |contents|;
      this.usizeMax := usizeMax;
    }

    /** `FileView::read`: validates the range, then walks the aligned chunk
        addresses from the one holding `start`, taking a reader on every cached
        chunk and reading every missing one, and returns the mapping over them. */
    method Read(start: nat, end: nat) returns (r: Result<FileViewMapping>)
      requires Valid()
      requires end <= length ==> start <= end
      modifies inner
      ensures Valid()
      ensures end > length ==> r == Err(OutOfBoundsError)
      ensures end <= length && end - start > usizeMax ==> r == Err(RangeTooBigError)
      ensures end <= length && end - start <= usizeMax ==> r.Ok?
      ensures r.Err? ==> unchanged(inner)
      ensures r.Ok? ==>
        var addrs := Addresses(start, end);
        var last := addrs[|addrs| - 1];
        && r.value == MappingFor(inner.file, start, end)
        && inner.buffers == AcquireAll(old(inner.buffers), inner.file, addrs)
        && inner.live == old(inner.live) + [r.value]
        && inner.cursor == if last in old(inner.buffers) then last + CHUNK_SIZE
                           else Min(last + CHUNK_SIZE, length)
    {
      if end > length {
        return Err(OutOfBoundsError);
      }
      var len := end - start;
      if len > usizeMax {
        return Err(RangeTooBigError);
      }
      var mapping := inner.AcquireRange(start, end);
      MappingForShape(inner.file, start, end);
      MappingForIsMappingOf(inner.file, start, end);
      MappingOffsetsDistinct(mapping, inner.file);
      AcquireKeepsCounts(old(inner.buffers), inner.file, inner.live, mapping);
      inner.live := inner.live + [mapping];
      return Ok(mapping);
    }

    /** `FileView::read_raw`: the same validations, then the range's bytes read
        straight from the file; the chunk table is not looked at. */
    method ReadRaw(start: nat, end: nat) returns (r: Result<seq<byte>>)
      requires Valid()
      requires end <= length ==> start <= end
      modifies inner`cursor
      ensures Valid()
      ensures end > length ==> r == Err(OutOfBoundsError)
      ensures end <= length && end - start > usizeMax ==> r == Err(RangeTooBigError)
      ensures end <= length && end - start <= usizeMax ==> r == Ok(inner.file[start..end]) && inner.cursor == end
      ensures r.Err? ==> inner.cursor == old(inner.cursor)
    {
      if end > length {
        return Err(OutOfBoundsError);
      }
      var len := end - start;
      if len > usizeMax {
        return Err(RangeTooBigError);
      }
      var buffer := new byte[len](_ => 0);
      inner.Seek(start);
      inner.ReadExact(buffer);
      return Ok(buffer[..]);
    }

    /** `FileView::handle_dropped_mapping`, run when a live mapping is dropped:
        takes one reader from each of its chunks, then evicts the chunks no
        mapping reads any more. */
    method HandleDroppedMapping(mapping: FileViewMapping)
      requires Valid()
      requires mapping in inner.live
      modifies inner
      ensures Valid()
      ensures Distinct(Offsets(mapping))
      ensures MappingChunksPresent(old(inner.buffers), mapping)
      ensures inner.buffers == ReleaseAll(old(inner.buffers), Offsets(mapping))
      ensures inner.live == RemoveFirst(old(inner.live), mapping)
      ensures inner.cursor == old(inner.cursor)
    {
      MappingOffsetsDistinct(mapping, inner.file);
      ReleaseKeepsCounts(inner.buffers, inner.live, mapping);
      ReleaseAllWellKeyed(inner.buffers, inner.file, Offsets(mapping));
      inner.ReleaseChunks(mapping);
      inner.live := RemoveFirst(inner.live, mapping);
    }
  }

  /** Every chunk a mapping names is in the table with at least one reader. */
  ghost predicate MappingChunksPresent(t: Table, m: FileViewMapping) {
    forall k :: k in Offsets(m) ==> k in t && t[k].readers > 0
  }
}
