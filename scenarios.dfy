/**
 The behaviour the repository's tests expect of a view over the twelve-byte
 file "hello world!", and a read followed by the release of its mapping.
 */
module Scenarios {
  import opened Chunks
  import opened ChunkTable
  import opened Mapping
  import opened FileViewModel

  /** The bytes of "hello world!". */
  const HELLO: seq<byte> := [104, 101, 108, 108, 111, 32, 119, 111, 114, 108, 100, 33]

  /** `usize::MAX` on a 64-bit platform. */
  const USIZE_MAX: nat := 0xFFFF_FFFF_FFFF_FFFF

  /** The slices of "hello world!" the tests compare against. */
  lemma HelloSlices()
    ensures HELLO[0..12] == [104, 101, 108, 108, 111, 32, 119, 111, 114, 108, 100, 33]
    ensures HELLO[3..12] == [108, 111, 32, 119, 111, 114, 108, 100, 33]
    ensures HELLO[11..12] == [33]
  {
  }

  /** Two live mappings hold a chunk once for each of them that names it. */
  lemma HoldersOfTwo(a: FileViewMapping, b: FileViewMapping, address: nat)
    ensures Holders([a, b], address) == (if address in Offsets(a) then 1 else 0) + (if address in Offsets(b) then 1 else 0)
  {
    assert [a, b][1..] == [b];
    assert [b][1..] == [];
    assert Holders([b], address) == (if address in Offsets(b) then 1 else 0) + Holders([], address);
  }

  /** Dropping the older of two live mappings, then the other, leaves none. */
  lemma RemoveInOrder(a: FileViewMapping, b: FileViewMapping)
    ensures RemoveFirst([a, b], a) == [b]
    ensures RemoveFirst([b], b) == []
  {
    assert [a, b][1..] == [b];
  }

  /** Reading `[start, end)` of a valid view inside the file and within
      `usize::MAX` succeeds, and copying the mapping out gives the file's bytes
      `[start, end)`. */
  method ReadToVec(view: FileView, start: nat, end: nat) returns (mapping: FileViewMapping, bytes: seq<byte>)
    requires view.Valid()
    requires start <= end <= view.length && end - start <= view.usizeMax
    modifies view.inner
    ensures view.Valid()
    ensures mapping == MappingFor(view.inner.file, start, end)
    ensures view.inner.live == old(view.inner.live) + [mapping]
    ensures view.inner.buffers == AcquireAll(old(view.inner.buffers), view.inner.file, Offsets(mapping))
    ensures bytes == view.inner.file[start..end]
  {
    var r := view.Read(start, end);
    mapping := r.value;
    MappingForShape(view.inner.file, start, end);
    ReadStitchesFileRange(view.inner.file, start, end);
    bytes := ToVec(mapping);
  }

  /** Releasing the mapping a read has just returned puts the chunk table back
      exactly as it was and leaves the same live mappings. */
  method ReadThenRelease(view: FileView, start: nat, end: nat) returns (bytes: seq<byte>)
    requires view.Valid()
    requires start <= end <= view.length && end - start <= view.usizeMax
    modifies view.inner
    ensures view.Valid()
    ensures bytes == view.inner.file[start..end]
    ensures view.inner.buffers == old(view.inner.buffers)
    ensures multiset(view.inner.live) == multiset(old(view.inner.live))
  {
    ghost var t := view.inner.buffers;
    var mapping;
    mapping, bytes := ReadToVec(view, start, end);
    MappingOffsetsDistinct(mapping, view.inner.file);
    AcquireReleaseRoundTrip(t, view.inner.file, Offsets(mapping));
    view.HandleDroppedMapping(mapping);
  }

  /** `basic`: two views of one file read `[0, 12)` and `[3, 12)`; both copies
      are the expected bytes, the one chunk they share has two readers, and
      once both mappings are dropped the table is empty again. */
  method Basic() returns (full: seq<byte>, small: seq<byte>, sharedReaders: nat, finalTable: Table)
    ensures full == [104, 101, 108, 108, 111, 32, 119, 111, 114, 108, 100, 33]
    ensures small == [108, 111, 32, 119, 111, 114, 108, 100, 33]
    ensures sharedReaders == 2
    ensures finalTable == map[]
  {
    var view := new FileView(HELLO, USIZE_MAX);
    var fullMapping, smallMapping;
    fullMapping, full := ReadToVec(view, 0, 12);
    smallMapping, small := ReadToVec(view, 3, 12);
    assert view.inner.live == [fullMapping, smallMapping];
    AddressesExactly(0, 12, 0);
    AddressesExactly(3, 12, 0);
    MappingForShape(HELLO, 0, 12);
    MappingForShape(HELLO, 3, 12);
    assert 0 in Offsets(fullMapping) && 0 in Offsets(smallMapping);
    HoldersOfTwo(fullMapping, smallMapping, 0);
    assert CountsMatch(view.inner.buffers, view.inner.live);
    assert 0 in view.inner.buffers && view.inner.buffers[0].readers == 2;
    HelloSlices();
    sharedReaders := view.inner.buffers[0].readers;
    RemoveInOrder(fullMapping, smallMapping);
    view.HandleDroppedMapping(fullMapping);
    view.HandleDroppedMapping(smallMapping);
    NoMappingsNoChunks(view.inner.buffers, HELLO);
    finalTable := view.inner.buffers;
  }

  /** `test_read1` and `test_read2`: the whole file, and its last byte alone. */
  method ReadOne() returns (whole: seq<byte>, last: seq<byte>)
    ensures whole == HELLO
    ensures last == [33]
  {
    var view := new FileView(HELLO, USIZE_MAX);
    var mapping;
    mapping, whole := ReadToVec(view, 0, 12);
    HelloSlices();
    var other := new FileView(HELLO, USIZE_MAX);
    mapping, last := ReadToVec(other, 11, 12);
  }

  /** `test_oob_end1` and `test_oob_end2`: ranges ending past the file fail
      with `OutOfBoundsError`. */
  method ReadPastEnd() returns (r1: Result<FileViewMapping>, r2: Result<FileViewMapping>)
    ensures r1 == Err(OutOfBoundsError) && r2 == Err(OutOfBoundsError)
  {
    var view := new FileView(HELLO, USIZE_MAX);
    r1 := view.Read(0, 13);
    r2 := view.Read(10, 13);
  }

  /** A range that ends past the file is refused before its length is
      computed, even when it is reversed. */
  method ReadReversedPastEnd() returns (r: Result<FileViewMapping>, raw: Result<seq<byte>>)
    ensures r == Err(OutOfBoundsError) && raw == Err(OutOfBoundsError)
  {
    var view := new FileView(HELLO, USIZE_MAX);
    r := view.Read(20, 13);
    raw := view.ReadRaw(20, 13);
  }
}
