/**
 A read mapping (`FileViewMappingInner`): the chunks a read acquired plus the
 offsets that clip the first and the last one, the iterator over its clipped
 slices (`FileViewMappingChunks`) and the copy that stitches them together
 (`FileViewMapping::to_vec`).
 */
module Mapping {
  import opened Chunks

  datatype Option<T> = None | Some(value: T)

  /** `start_offset`, `end_offset`, `length` and the ordered chunks of a mapping.
      The back-reference to the view is not part of the value. */
  datatype FileViewMapping = FileViewMapping(
    startOffset: nat,
    endOffset: nat,
    length: nat,
    buffers: seq<FileViewChunk>)

  /** The offsets of the chunks a mapping holds, in order. */
  function Offsets(m: FileViewMapping): seq<nat> {
    seq(|m.buffers|, i requires 0 <= i < |m.buffers| => m.buffers[i].offset)
  }

  /** The slice bounds the iterator picks for chunk `index`: the first slice
      begins at `startOffset`, the last ends at `endOffset`, everything else is
      the whole chunk. */
  function SliceBounds(m: FileViewMapping, index: nat): (nat, nat)
    requires index < |m.buffers|
  {
    (if index == 0 then m.startOffset else 0,
     if index == |m.buffers| - 1 then m.endOffset else CHUNK_SIZE)
  }

  /** Every slice the iterator cuts lies inside its chunk's data (slicing would
      panic otherwise). */
  ghost predicate SlicesInBounds(m: FileViewMapping) {
    forall i :: 0 <= i < |m.buffers| ==>
      SliceBounds(m, i).0 <= SliceBounds(m, i).1 <= |m.buffers[i].data|
  }

  function ChunkSlice(m: FileViewMapping, index: nat): seq<byte>
    requires SlicesInBounds(m) && index < |m.buffers|
  {
    m.buffers[index].data[SliceBounds(m, index).0..SliceBounds(m, index).1]
  }

  /** The first `count` slices, concatenated. */
  function StitchedPrefix(m: FileViewMapping, count: nat): seq<byte>
    requires SlicesInBounds(m) && count <= |m.buffers|
  {
    if count == 0 then [] else StitchedPrefix(m, count - 1) + ChunkSlice(m, count - 1)
  }

  /** All slices of the mapping, concatenated in order. */
  function Stitched(m: FileViewMapping): seq<byte>
    requires SlicesInBounds(m)
  {
    StitchedPrefix(m, |m.buffers|)
  }

  /** The chunks filled from `file` at `addrs`. */
  function ChunksAt(file: seq<byte>, addrs: seq<nat>): seq<FileViewChunk> {
    seq(|addrs|, i requires 0 <= i < |addrs| => FileViewChunk(addrs[i], ChunkFill(file, addrs[i])))
  }

  /** The mapping a successful read of `[start, end)` returns: its chunks are
      those at the acquired addresses, `startOffset` is the position of `start`
      in the first one and `endOffset` the position of `end` in the last one. */
  function MappingFor(file: seq<byte>, start: nat, end: nat): (m: FileViewMapping)
    requires start <= end
    ensures |m.buffers| >= 1 && SlicesInBounds(m)
  {
    AddressesShape(start, end);
    var addrs := Addresses(start, end);
    FileViewMapping(start % CHUNK_SIZE, end - addrs[|addrs| - 1], end - start, ChunksAt(file, addrs))
  }

  /** A read's mapping holds the chunks at the read's addresses; its offsets
      clip the first chunk at `start` and the last at `end`, and its length is
      the range's. */
  lemma MappingForShape(file: seq<byte>, start: nat, end: nat)
    requires start <= end
    ensures var m := MappingFor(file, start, end);
            && Offsets(m) == Addresses(start, end)
            && m.startOffset < CHUNK_SIZE && m.endOffset <= CHUNK_SIZE
            && m.buffers[0].offset + m.startOffset == start
            && m.buffers[|m.buffers| - 1].offset + m.endOffset == end
            && m.length == end - start
  {
    AddressesShape(start, end);
  }

  /** First byte of the range a mapping covers. */
  function RangeStart(m: FileViewMapping): nat
    requires |m.buffers| >= 1
  {
    m.buffers[0].offset + m.startOffset
  }

  /** `m` is what a successful read of its own range returns for `file`. */
  ghost predicate IsMappingOf(m: FileViewMapping, file: seq<byte>) {
    && |m.buffers| >= 1
    && RangeStart(m) + m.length <= |file|
    && m == MappingFor(file, RangeStart(m), RangeStart(m) + m.length)
  }

  /** A read's mapping records its own range. */
  lemma MappingForIsMappingOf(file: seq<byte>, start: nat, end: nat)
    requires start <= end <= |file|
    ensures IsMappingOf(MappingFor(file, start, end), file)
  {
    var m := MappingFor(file, start, end);
    MappingForShape(file, start, end);
    assert RangeStart(m) == start && RangeStart(m) + m.length == end;
  }

  /** A read's mapping names each chunk once. */
  lemma MappingOffsetsDistinct(m: FileViewMapping, file: seq<byte>)
    requires IsMappingOf(m, file)
    ensures Distinct(Offsets(m))
    ensures forall k :: k in Offsets(m) ==> Aligned(k)
  {
    var start, end := RangeStart(m), RangeStart(m) + m.length;
    MappingForShape(file, start, end);
    assert Offsets(m) == Addresses(start, end);
    AddressesShape(start, end);
  }

  /** File position of the first byte of slice `index`. */
  function SliceStart(m: FileViewMapping, index: nat): nat
    requires index < |m.buffers|
  {
    m.buffers[index].offset + SliceBounds(m, index).0
  }

  /** File position just past the last byte of slice `index`. */
  function SliceEnd(m: FileViewMapping, index: nat): nat
    requires index < |m.buffers|
  {
    m.buffers[index].offset + SliceBounds(m, index).1
  }

  /** Slice `index` of a read's mapping is the file's bytes under it; the
      first slice begins at `start`, the last ends at `end`, and each slice
      ends where the next begins. */
  lemma SliceIsFileRange(file: seq<byte>, start: nat, end: nat, index: nat)
    requires start <= end <= |file|
    requires index < |MappingFor(file, start, end).buffers|
    ensures var m := MappingFor(file, start, end);
            && start <= SliceStart(m, index) <= SliceEnd(m, index) <= end
            && (index == 0 ==> SliceStart(m, index) == start)
            && (index + 1 == |m.buffers| ==> SliceEnd(m, index) == end)
            && (index + 1 < |m.buffers| ==> SliceEnd(m, index) == SliceStart(m, index + 1))
            && ChunkSlice(m, index) == file[SliceStart(m, index)..SliceEnd(m, index)]
  {
    var m := MappingFor(file, start, end);
    var addrs := Addresses(start, end);
    ChunkAddressesShape(BaseAddress(start), end);
    AddressStep(start, end, index);
    MappingForShape(file, start, end);
    assert Offsets(m)[index] == m.buffers[index].offset;
    assert Offsets(m)[0] == m.buffers[0].offset;
    var address := addrs[index];
    var (b, e) := SliceBounds(m, index);
    if index + 1 < |m.buffers| {
      assert Offsets(m)[index + 1] == m.buffers[index + 1].offset;
      assert address + e == addrs[index + 1] < end;
    }
    FillSlice(file, address, b, e);
  }

  /** Slice `index` is the file's bytes between its start and its end. */
  ghost predicate SliceShowsFile(m: FileViewMapping, file: seq<byte>, index: nat)
    requires SlicesInBounds(m) && index < |m.buffers|
  {
    && SliceStart(m, index) <= SliceEnd(m, index) <= |file|
    && ChunkSlice(m, index) == file[SliceStart(m, index)..SliceEnd(m, index)]
  }

  /** Each of the first `count` slices shows the file's bytes under it and
      begins where the one before it ends. */
  ghost predicate SlicesFollowFile(m: FileViewMapping, file: seq<byte>, count: nat)
    requires SlicesInBounds(m) && count <= |m.buffers|
    decreases count
  {
    || count == 0
    || (&& SlicesFollowFile(m, file, count - 1)
        && SliceShowsFile(m, file, count - 1)
        && (count > 1 ==> SliceStart(m, count - 1) == SliceEnd(m, count - 2)))
  }

  /** Slices that each show the file's bytes under them and follow on from one
      another stitch into the file's bytes from the first slice's start to the
      last one's end. */
  lemma {:induction false} StitchedPrefixContiguous(m: FileViewMapping, file: seq<byte>, count: nat)
    requires SlicesInBounds(m) && 1 <= count <= |m.buffers|
    requires SlicesFollowFile(m, file, count)
    ensures SliceStart(m, 0) <= SliceEnd(m, count - 1)
    ensures StitchedPrefix(m, count) == file[SliceStart(m, 0)..SliceEnd(m, count - 1)]
  {
    if count > 1 {
      StitchedPrefixContiguous(m, file, count - 1);
      var first, middle, stop := SliceStart(m, 0), SliceStart(m, count - 1), SliceEnd(m, count - 1);
      calc {
        StitchedPrefix(m, count);
        StitchedPrefix(m, count - 1) + ChunkSlice(m, count - 1);
        file[first..middle] + file[middle..stop];
        { SliceConcat(file, first, middle, stop); }
        file[first..stop];
      }
    }
  }

  /** The slices of a read's mapping follow the file. */
  lemma {:induction false} ReadSlicesFollowFile(file: seq<byte>, start: nat, end: nat, count: nat)
    requires start <= end <= |file|
    requires count <= |MappingFor(file, start, end).buffers|
    ensures SlicesFollowFile(MappingFor(file, start, end), file, count)
  {
    if count > 0 {
      ReadSlicesFollowFile(file, start, end, count - 1);
      SliceIsFileRange(file, start, end, count - 1);
      if count > 1 {
        SliceIsFileRange(file, start, end, count - 2);
      }
    }
  }

  /** Stitching the slices of a read's mapping reproduces the file's bytes
      `[start, end)`, across every chunk boundary, and so has `length` bytes. */
  lemma ReadStitchesFileRange(file: seq<byte>, start: nat, end: nat)
    requires start <= end <= |file|
    ensures Stitched(MappingFor(file, start, end)) == file[start..end]
    ensures |Stitched(MappingFor(file, start, end))| == MappingFor(file, start, end).length
  {
    var m := MappingFor(file, start, end);
    ReadSlicesFollowFile(file, start, end, |m.buffers|);
    SliceIsFileRange(file, start, end, 0);
    SliceIsFileRange(file, start, end, |m.buffers| - 1);
    StitchedPrefixContiguous(m, file, |m.buffers|);
    assert Stitched(m) == file[start..end];
    MappingForShape(file, start, end);
    assert |file[start..end]| == m.length;
  }

  /** The iterator `chunks()` hands out: a mapping and the index of the next
      chunk. */
  class FileViewMappingChunks {
    const mapping: FileViewMapping
    var index: nat

    /** `FileViewMapping::chunks`: an iterator at the first chunk. */
    constructor (mapping: FileViewMapping)
      ensures this.mapping == mapping && index == 0
    {
      this.mapping := mapping;
      index := 0;
    }

    /** Yields the clipped slice of the next chunk, and `None` once every chunk
        has been handed out; the index advances on every call. */
    method Next() returns (r: Option<seq<byte>>)
      requires SlicesInBounds(mapping)
      modifies this`index
      ensures index == old(index) + 1
      ensures old(index) < |mapping.buffers| ==> r == Some(ChunkSlice(mapping, old(index)))
      ensures old(index) >= |mapping.buffers| ==> r == None
    {
      var i := index;
      index := index + 1;
      if i < |mapping.buffers| {
        var (begin, end) := SliceBounds(mapping, i);
        r := Some(mapping.buffers[i].data[begin..end]);
      } else {
        r := None;
      }
    }
  }

  /** `FileViewMapping::to_vec`: appends every slice the iterator yields. */
  method ToVec(m: FileViewMapping) returns (v: seq<byte>)
    requires SlicesInBounds(m)
    ensures v == Stitched(m)
  {
    v := [];
    var chunks := new FileViewMappingChunks(m);
    while true
      invariant chunks.mapping == m
      invariant chunks.index <= |m.buffers|
      invariant v == StitchedPrefix(m, chunks.index)
      decreases |m.buffers| - chunks.index
    {
      var chunk := chunks.Next();
      match chunk {
        case None => break;
        case Some(slice) => v := v + slice;
      }
    }
  }
}
