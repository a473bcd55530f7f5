/**
 The chunk table `FileViewInner.buffers` as a value: a map from aligned file
 offset to a reference-counted chunk entry, with the acquire step of the read
 loop and the release step of a dropped mapping as functions on it.
 */
module ChunkTable {
  import opened Chunks

  type Table = map<nat, FileViewChunkWrapper>

  /** The table's own invariant: every key is aligned, no entry is unread, and
      every entry holds the chunk filled from the file at its key. */
  ghost predicate WellKeyed(t: Table, file: seq<byte>) {
    forall k :: k in t ==>
      && Aligned(k)
      && t[k].readers > 0
      && t[k].inner == FileViewChunk(k, ChunkFill(file, k))
  }

  /** One pass of the read loop at `address`: on a hit the entry gains a reader
      and keeps its chunk; on a miss a freshly filled chunk is inserted with one
      reader. */
  function Acquire(t: Table, file: seq<byte>, address: nat): Table {
    if address in t then t[address := t[address].(readers := t[address].readers + 1)]
    else t[address := FileViewChunkWrapper(1, FileViewChunk(address, ChunkFill(file, address)))]
  }

  /** Acquiring the addresses `addrs` in order. */
  function AcquireAll(t: Table, file: seq<byte>, addrs: seq<nat>): Table
    decreases |addrs|
  {
    if addrs == [] then t
    else Acquire(AcquireAll(t, file, addrs[..|addrs| - 1]), file, addrs[|addrs| - 1])
  }

  /** Acquiring distinct addresses: the table gains exactly the addresses that
      were missing, each with one reader and its filled chunk; every address
      already present gains one reader and keeps its chunk; nothing else
      changes. */
  lemma {:induction false} AcquireAllEntries(t: Table, file: seq<byte>, addrs: seq<nat>)
    requires Distinct(addrs)
    ensures var r := AcquireAll(t, file, addrs);
            && (forall k :: k in r <==> k in t || k in addrs)
            && (forall k :: k in r && k !in addrs ==> r[k] == t[k])
            && (forall k :: k in addrs && k in t ==> r[k] == t[k].(readers := t[k].readers + 1))
            && (forall k :: k in addrs && k !in t ==>
                  r[k] == FileViewChunkWrapper(1, FileViewChunk(k, ChunkFill(file, k))))
    decreases |addrs|
  {
    if addrs != [] {
      var prefix := addrs[..|addrs| - 1];
      assert forall k :: k in addrs <==> k in prefix || k == addrs[|addrs| - 1];
      assert addrs[|addrs| - 1] !in prefix;
      AcquireAllEntries(t, file, prefix);
    }
  }

  /** Dropping one reader of the entry at `address`: the entry goes when its
      count reaches zero. */
  function Release(t: Table, address: nat): Table
    requires address in t && t[address].readers > 0
  {
    if t[address].readers == 1 then t - {address}
    else t[address := t[address].(readers := t[address].readers - 1)]
  }

  /** Releasing the distinct offsets `offsets` in order: exactly the entries
      whose count was one disappear, the other released entries lose one
      reader, and entries outside `offsets` are untouched. */
  function ReleaseAll(t: Table, offsets: seq<nat>): (r: Table)
    requires Distinct(offsets)
    requires forall k :: k in offsets ==> k in t && t[k].readers > 0
    ensures forall k :: k in r <==> k in t && !(k in offsets && t[k].readers == 1)
    ensures forall k :: k in r && k !in offsets ==> r[k] == t[k]
    ensures forall k :: k in r && k in offsets ==> r[k] == t[k].(readers := t[k].readers - 1)
    decreases |offsets|
  {
    if offsets == [] then t
    else
      var prefix := offsets[..|offsets| - 1];
      assert forall k :: k in offsets <==> k in prefix || k == offsets[|offsets| - 1];
      assert offsets[|offsets| - 1] !in prefix;
      Release(ReleaseAll(t, prefix), offsets[|offsets| - 1])
  }

  /** The first loop of a release: one reader fewer on every entry `offsets`
      names, no entry removed yet. */
  function Decremented(t: Table, offsets: seq<nat>): Table {
    map k | k in t :: if k in offsets && t[k].readers > 0 then t[k].(readers := t[k].readers - 1) else t[k]
  }

  /** The offsets the first loop of a release collects: those whose count
      reaches zero, in order. */
  function StaleOffsets(t: Table, offsets: seq<nat>): seq<nat>
    decreases |offsets|
  {
    if offsets == [] then []
    else
      var last := offsets[|offsets| - 1];
      StaleOffsets(t, offsets[..|offsets| - 1]) + (if last in t && t[last].readers == 1 then [last] else [])
  }

  /** The collected offsets are exactly the released entries that had one
      reader left. */
  lemma {:induction false} StaleOffsetsMembers(t: Table, offsets: seq<nat>)
    ensures forall k :: k in StaleOffsets(t, offsets) <==> k in offsets && k in t && t[k].readers == 1
    decreases |offsets|
  {
    if offsets != [] {
      var prefix := offsets[..|offsets| - 1];
      assert forall k :: k in offsets <==> k in prefix || k == offsets[|offsets| - 1];
      StaleOffsetsMembers(t, prefix);
    }
  }

  /** The second loop of a release: every key of `keys` removed in turn. */
  function RemoveAll(t: Table, keys: seq<nat>): (r: Table)
    ensures forall k :: k in r <==> k in t && k !in keys
    ensures forall k :: k in r ==> r[k] == t[k]
    decreases |keys|
  {
    if keys == [] then t
    else
      var prefix := keys[..|keys| - 1];
      assert forall k :: k in keys <==> k in prefix || k == keys[|keys| - 1];
      RemoveAll(t, prefix) - {keys[|keys| - 1]}
  }

  /** What the first release loop needs of the offsets: each names an entry
      with a reader to take, and none is named twice. */
  ghost predicate Releasable(t: Table, offsets: seq<nat>) {
    Distinct(offsets) && forall k :: k in offsets ==> k in t && t[k].readers > 0
  }

  /** One more pass of the first release loop. */
  lemma {:induction false} DecrementStep(t: Table, offsets: seq<nat>, i: nat)
    requires Releasable(t, offsets) && i < |offsets|
    ensures var d := Decremented(t, offsets[..i]);
            && offsets[i] in d && d[offsets[i]] == t[offsets[i]]
            && Decremented(t, offsets[..i + 1]) == d[offsets[i] := d[offsets[i]].(readers := d[offsets[i]].readers - 1)]
    ensures StaleOffsets(t, offsets[..i + 1]) ==
            StaleOffsets(t, offsets[..i]) + (if t[offsets[i]].readers == 1 then [offsets[i]] else [])
  {
    assert offsets[..i + 1][..i] == offsets[..i];
    assert offsets[i] !in offsets[..i];
    assert forall k :: k in offsets[..i + 1] <==> k in offsets[..i] || k == offsets[i];
  }

  /** Collected stale offsets name each entry once. */
  lemma {:induction false} StaleOffsetsDistinct(t: Table, offsets: seq<nat>)
    requires Distinct(offsets)
    ensures Distinct(StaleOffsets(t, offsets))
    decreases |offsets|
  {
    if offsets != [] {
      var prefix := offsets[..|offsets| - 1];
      var last := offsets[|offsets| - 1];
      assert last !in prefix;
      StaleOffsetsMembers(t, prefix);
      StaleOffsetsDistinct(t, prefix);
    }
  }

  /** One more pass of the second release loop: the offset it removes is
      still in the table (so `remove(..).unwrap()` cannot fail), and the
      removed prefix grows by one. */
  lemma StaleRemoveStep(t: Table, offsets: seq<nat>, j: nat)
    requires Releasable(t, offsets)
    requires j < |StaleOffsets(t, offsets)|
    ensures var stale := StaleOffsets(t, offsets);
            var d := Decremented(t, offsets);
            && stale[j] in RemoveAll(d, stale[..j])
            && RemoveAll(d, stale[..j + 1]) == RemoveAll(d, stale[..j]) - {stale[j]}
  {
    var stale := StaleOffsets(t, offsets);
    StaleOffsetsMembers(t, offsets);
    StaleOffsetsDistinct(t, offsets);
    assert stale[j] in stale;
    assert stale[j] !in stale[..j];
    assert stale[..j + 1][..j] == stale[..j];
  }

  /** Both ways of releasing agree on the entry at `k`. */
  lemma TwoPhaseReleaseAt(t: Table, offsets: seq<nat>, k: nat)
    requires Distinct(offsets)
    requires forall k :: k in offsets ==> k in t && t[k].readers > 0
    ensures var r := RemoveAll(Decremented(t, offsets), StaleOffsets(t, offsets));
            var expected := ReleaseAll(t, offsets);
            (k in r <==> k in expected) && (k in r ==> r[k] == expected[k])
  {
    StaleOffsetsMembers(t, offsets);
    assert k in Decremented(t, offsets) <==> k in t;
  }

  /** Decrementing everything and then removing the collected offsets is the
      same as releasing the offsets one at a time. */
  lemma TwoPhaseRelease(t: Table, offsets: seq<nat>)
    requires Distinct(offsets)
    requires forall k :: k in offsets ==> k in t && t[k].readers > 0
    ensures RemoveAll(Decremented(t, offsets), StaleOffsets(t, offsets)) == ReleaseAll(t, offsets)
  {
    var r := RemoveAll(Decremented(t, offsets), StaleOffsets(t, offsets));
    var expected := ReleaseAll(t, offsets);
    forall k | k in r || k in expected
      ensures k in r && k in expected && r[k] == expected[k]
    {
      TwoPhaseReleaseAt(t, offsets, k);
    }
  }

  /** Acquiring aligned addresses keeps the table well keyed. */
  lemma AcquireAllWellKeyed(t: Table, file: seq<byte>, addrs: seq<nat>)
    requires WellKeyed(t, file)
    requires Distinct(addrs)
    requires forall a :: a in addrs ==> Aligned(a)
    ensures WellKeyed(AcquireAll(t, file, addrs), file)
  {
    AcquireAllEntries(t, file, addrs);
  }

  /** Releasing keeps the table well keyed: no zero-count entry survives. */
  lemma ReleaseAllWellKeyed(t: Table, file: seq<byte>, offsets: seq<nat>)
    requires WellKeyed(t, file)
    requires Distinct(offsets)
    requires forall k :: k in offsets ==> k in t
    ensures WellKeyed(ReleaseAll(t, offsets), file)
  {
  }

  /** Releasing what was just acquired gives back the table exactly: hits lose
      the reader they gained and misses are evicted again. */
  lemma AcquireReleaseRoundTrip(t: Table, file: seq<byte>, addrs: seq<nat>)
    requires Distinct(addrs)
    requires forall k :: k in t ==> t[k].readers > 0
    ensures var acquired := AcquireAll(t, file, addrs);
            (forall k :: k in addrs ==> k in acquired && acquired[k].readers > 0)
            && ReleaseAll(acquired, addrs) == t
  {
    AcquireAllEntries(t, file, addrs);
    var acquired := AcquireAll(t, file, addrs);
    assert forall k :: k in addrs ==> k in acquired && acquired[k].readers > 0;
    var released := ReleaseAll(acquired, addrs);
    forall k | k in t
      ensures k in released && released[k] == t[k]
    {
      if k in addrs {
        assert acquired[k].readers == t[k].readers + 1;
      }
    }
    assert forall k :: k in released ==> k in t;
  }
}
