/**
 Chunk-level vocabulary of the cached file view: the chunk size, chunk-aligned
 addresses, the sequence of addresses the acquire loop of `FileView::read`
 visits, and the bytes a cache miss stores for one address.
 */
module Chunks {

  type byte = bv8

  /** `CHUNK_SIZE`: every cached chunk holds exactly this many bytes. */
  const CHUNK_SIZE: nat := 0x8000

  predicate Aligned(address: nat) {
    address % CHUNK_SIZE == 0
  }

  function Min(a: nat, b: nat): nat {
    if a <= b then a else b
  }

  /** No address occurs twice. */
  predicate Distinct(s: seq<nat>) {
    forall i, j :: 0 <= i < j < |s| ==> s[i] != s[j]
  }

  /** A chunk: the bytes read from one aligned file offset (`FileViewChunk`). */
  datatype FileViewChunk = FileViewChunk(offset: nat, data: seq<byte>)

  /** A table entry: the chunk and the number of live mappings reading it
      (`FileViewChunkWrapper`). */
  datatype FileViewChunkWrapper = FileViewChunkWrapper(readers: nat, inner: FileViewChunk)

  /** The aligned address of the chunk holding byte `start`. */
  function BaseAddress(start: nat): (base: nat)
    ensures Aligned(base)
    ensures base <= start < base + CHUNK_SIZE
  {
    start - start % CHUNK_SIZE
  }

  /** The addresses the acquire loop visits when it stands at `address` and the
      range ends at `end`: the loop always takes the current address, then
      stops as soon as the next one is not below `end`. */
  function ChunkAddresses(address: nat, end: nat): (addrs: seq<nat>)
    requires address <= end
    ensures |addrs| >= 1
    decreases end - address
  {
    if address + CHUNK_SIZE >= end then [address]
    else [address] + ChunkAddresses(address + CHUNK_SIZE, end)
  }

  /** The visited addresses step by CHUNK_SIZE from `address`; all but the
      first lie below `end` and the last is within one chunk of it. */
  lemma {:induction false} ChunkAddressesShape(address: nat, end: nat)
    requires address <= end
    ensures var addrs := ChunkAddresses(address, end);
            && (forall i :: 0 <= i < |addrs| ==> addrs[i] == address + i * CHUNK_SIZE)
            && (forall i :: 0 < i < |addrs| ==> addrs[i] < end)
            && addrs[|addrs| - 1] + CHUNK_SIZE >= end
    decreases end - address
  {
    if address + CHUNK_SIZE < end {
      var rest := ChunkAddresses(address + CHUNK_SIZE, end);
      ChunkAddressesShape(address + CHUNK_SIZE, end);
      var addrs := ChunkAddresses(address, end);
      assert addrs == [address] + rest;
      forall i | 0 < i < |addrs|
        ensures addrs[i] == address + i * CHUNK_SIZE && addrs[i] < end
      {
        assert addrs[i] == rest[i - 1];
      }
    }
  }

  /** The chunk addresses a successful read of `[start, end)` acquires, in order. */
  function Addresses(start: nat, end: nat): seq<nat>
    requires start <= end
  {
    ChunkAddresses(BaseAddress(start), end)
  }

  /** The addresses of a read are aligned, strictly increasing and distinct; the
      last one is at most `end`, so the end offset it leaves is a `usize`
      between 0 and CHUNK_SIZE. */
  lemma AddressesShape(start: nat, end: nat)
    requires start <= end
    ensures forall a :: a in Addresses(start, end) ==> Aligned(a)
    ensures forall i, j :: 0 <= i < j < |Addresses(start, end)| ==> Addresses(start, end)[i] < Addresses(start, end)[j]
    ensures Distinct(Addresses(start, end))
    ensures Addresses(start, end)[0] == BaseAddress(start)
    ensures var last := Addresses(start, end)[|Addresses(start, end)| - 1];
            last <= end && end - last <= CHUNK_SIZE
  {
    var addrs := Addresses(start, end);
    var base := BaseAddress(start);
    ChunkAddressesShape(base, end);
    forall a | a in addrs ensures Aligned(a) {
      var i :| 0 <= i < |addrs| && addrs[i] == a;
      AlignedStep(base, i);
    }
  }

  /** `base + i * CHUNK_SIZE` is aligned when `base` is. */
  lemma AlignedStep(base: nat, i: nat)
    requires Aligned(base)
    ensures Aligned(base + i * CHUNK_SIZE)
  {
    var q := base / CHUNK_SIZE;
    assert base == q * CHUNK_SIZE;
    assert base + i * CHUNK_SIZE == (q + i) * CHUNK_SIZE;
  }

  /** One address of a read: it is aligned and at most `end`, the next one is
      a chunk further on, and there is a next one exactly when that lies below
      `end`. */
  lemma AddressStep(start: nat, end: nat, i: nat)
    requires start <= end && i < |Addresses(start, end)|
    ensures var addrs := Addresses(start, end);
            && Aligned(addrs[i]) && addrs[i] <= end
            && (i == 0 ==> addrs[i] == BaseAddress(start))
            && (i + 1 < |addrs| <==> addrs[i] + CHUNK_SIZE < end)
            && (i + 1 < |addrs| ==> addrs[i + 1] == addrs[i] + CHUNK_SIZE)
  {
    AddressesShape(start, end);
    ChunkAddressesShape(BaseAddress(start), end);
  }

  /** The acquired addresses are exactly the aligned addresses from the base up
      to (not including) `end`; the base itself is taken even when the range is
      empty and starts on a chunk boundary. */
  lemma {:induction false} AddressesExactly(start: nat, end: nat, x: nat)
    requires start <= end
    ensures x in Addresses(start, end) <==>
              Aligned(x) && BaseAddress(start) <= x && (x < end || x == BaseAddress(start))
  {
    var addrs := Addresses(start, end);
    var base := BaseAddress(start);
    AddressesShape(start, end);
    ChunkAddressesShape(base, end);
    if Aligned(x) && base <= x && (x < end || x == base) {
      var i := (x - base) / CHUNK_SIZE;
      assert (x - base) % CHUNK_SIZE == 0 by {
        var qx, qb := x / CHUNK_SIZE, base / CHUNK_SIZE;
        assert x == qx * CHUNK_SIZE && base == qb * CHUNK_SIZE;
        assert x - base == (qx - qb) * CHUNK_SIZE;
      }
      assert x == base + i * CHUNK_SIZE;
      assert i < |addrs|;
      assert addrs[i] == x;
    }
  }

  /** The `CHUNK_SIZE` bytes a cache miss stores for `address`: the file's bytes
      from `address` on, with every byte past the end of the file left zero (the
      buffer starts zero-filled and a read near end-of-file is short). */
  function ChunkFill(file: seq<byte>, address: nat): (data: seq<byte>)
    ensures |data| == CHUNK_SIZE
  {
    seq(CHUNK_SIZE, i requires 0 <= i < CHUNK_SIZE => if address + i < |file| then file[address + i] else 0)
  }

  /** A zero-filled buffer whose first `count` bytes were read from the file at
      `address`, where `count` is all the file has there up to CHUNK_SIZE, is
      the filled chunk. */
  lemma ReadFillsChunk(file: seq<byte>, address: nat, data: seq<byte>, count: nat)
    requires |data| == CHUNK_SIZE
    requires count == if address < |file| then Min(CHUNK_SIZE, |file| - address) else 0
    requires forall i :: 0 <= i < count ==> data[i] == file[address + i]
    requires forall i :: count <= i < CHUNK_SIZE ==> data[i] == 0
    ensures data == ChunkFill(file, address)
  {
  }

  /** Inside the file, a slice of a filled chunk is the file's own bytes. */
  lemma FillSlice(file: seq<byte>, address: nat, begin: nat, end: nat)
    requires begin <= end <= CHUNK_SIZE
    requires address + end <= |file|
    ensures ChunkFill(file, address)[begin..end] == file[address + begin..address + end]
  {
  }

  /** Adjacent slices of a sequence join into one. */
  lemma SliceConcat<T>(s: seq<T>, a: nat, b: nat, c: nat)
    requires a <= b <= c <= |s|
    ensures s[a..b] + s[b..c] == s[a..c]
  {
  }
}
