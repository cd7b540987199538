/**
 * The header of the hash-code partition a rehash writes into. The rehash
 * loop places each rehashed posting at the partition header's next free
 * offset and advances that offset in memory, but never writes the header
 * back: after a rehash the partition's header still says it is empty, and
 * the next hash-code reservation hands out the offset of the first rehashed
 * posting. With the header written back, every posting of the new
 * partition lies below the header's next free offset, which is what the
 * reservations rely on.
 */
module RehashHeader {
  import opened Wrappers
  import opened Postings
  import opened StoreFiles
  import opened StoreWalks
  import opened StoreSpec
  import FileHandler
  import Hashtable
  import ValuesPartition
  import Metadata

  // ---------------------------------------------------------------------
  // What the rehash loop keeps true of the new partition and generation

  /** Every posting of the partition ends at or before offset `at`. */
  predicate AllBelow(postings: map<int, HashCodePosting>, at: int)
  {
    forall o :: o in postings ==> o + HASH_CODE_POSTING_BYTE_SIZE <= at
  }

  /** Every next link of the partition leads to a posting of the same partition. */
  predicate LinksInside(postings: map<int, HashCodePosting>, target: int)
  {
    forall o :: o in postings && postings[o].nextPartition >= 0 ==>
      postings[o].nextPartition == target && postings[o].nextOffset in postings
  }

  /** Every bucket in use points at a posting of the partition. */
  predicate SlotsInside(slots: map<int, Hashtable.Posting>, postings: map<int, HashCodePosting>, target: int)
  {
    forall o :: o in slots && slots[o].flag == FileHandler.FLAG_IN_USE ==>
      slots[o].hashCodePostingPartition == target && slots[o].hashCodePostingPartitionOffset in postings
  }

  /**
   * The new generation `newId` and the new partition `target` as the loop
   * leaves them with `at` the offset of the next rehashed posting: the
   * postings lie below `at`, and the buckets and chains point inside the
   * partition.
   */
  predicate TargetTidy(d: Disk, newId: int, target: int, at: int)
  {
    newId in d.tables && target in d.hashCodes
    && AllBelow(d.hashCodes[target].postings, at)
    && LinksInside(d.hashCodes[target].postings, target)
    && SlotsInside(d.tables[newId].slots, d.hashCodes[target].postings, target)
  }

  /**
   * On a partition whose chains stay inside it, a hash-code walk from one of
   * its postings opens nothing and stops at one of its postings.
   */
  lemma {:induction false} WalkStaysInside(d: Disk, c: Config, target: int, hashCode: int, at: HashCursor, fuel: nat)
    requires target in d.hashCodes && LinksInside(d.hashCodes[target].postings, target)
    requires at.partition == target && at.offset in d.hashCodes[target].postings
    requires at.posting == d.hashCodes[target].postings[at.offset]
    ensures var s := HashWalk(d, c, HashOnly, hashCode, 0, at, fuel);
      s.disk == d
      && (s.result.Ok? ==> s.result.value.at.partition == target && s.result.value.at.offset in d.hashCodes[target].postings)
    decreases fuel
  {
    var postings := d.hashCodes[target].postings;
    if at.posting.keyHashCode != hashCode && at.posting.nextPartition >= 0 && fuel > 0 {
      var next := at.posting.nextOffset;
      if next >= 0 {
        WalkStaysInside(d, c, target, hashCode, HashCursor(target, next, postings[next]), fuel - 1);
      }
    }
  }

  /** Writing a posting of the new partition at `at` keeps it tidy up to one posting further. */
  lemma IntoBucketTidy(d: Disk, c: Config, newId: int, target: int, at: int, p: HashCodePosting, so: int, slot: Hashtable.Posting)
    requires TargetTidy(d, newId, target, at)
    ensures var s := RehashedIntoBucket(d, c, newId, target, at, p, so, slot);
      s.result.Ok? ==> TargetTidy(s.disk, newId, target, at + HASH_CODE_POSTING_BYTE_SIZE)
  {
    var s := RehashedIntoBucket(d, c, newId, target, at, p, so, slot);
    if s.result.Ok? {
      var copy := HashCodePosting(FileHandler.FLAG_IN_USE, p.createdRevision, p.deletedRevision, p.keyHashCode, -1, -1, p.firstKeyPartition, p.firstKeyOffset);
      var postings := d.hashCodes[target].postings[at := copy];
      assert s.disk.hashCodes[target].postings == postings;
      assert s.disk.tables[newId].slots == d.tables[newId].slots[so := slot.(flag := FileHandler.FLAG_IN_USE, hashCodePostingPartition := target, hashCodePostingPartitionOffset := at)];
    }
  }

  lemma IntoChainTidy(d: Disk, c: Config, newId: int, target: int, at: int, p: HashCodePosting, slot: Hashtable.Posting, fuel: nat)
    requires TargetTidy(d, newId, target, at)
    requires slot.hashCodePostingPartitionOffset in d.hashCodes[target].postings
    ensures var s := RehashedIntoChain(d, c, target, at, p, slot, fuel);
      s.result.Ok? ==> TargetTidy(s.disk, newId, target, at + HASH_CODE_POSTING_BYTE_SIZE)
  {
    var s := RehashedIntoChain(d, c, target, at, p, slot, fuel);
    var off := slot.hashCodePostingPartitionOffset;
    if s.result.Ok? {
      var first := HashCodeAt(d, target, off).value;
      WalkStaysInside(d, c, target, p.keyHashCode, HashCursor(target, off, first), fuel);
      var hw := HashWalk(d, c, HashOnly, p.keyHashCode, 0, HashCursor(target, off, first), fuel);
      if !hw.result.value.found {
        var last := hw.result.value.at;
        var appended := HashCodePosting(FileHandler.FLAG_IN_USE, 0, -1, p.keyHashCode, -1, -1, p.firstKeyPartition, p.firstKeyOffset);
        var postings := d.hashCodes[target].postings[at := appended][last.offset := last.posting.(nextPartition := target, nextOffset := at)];
        assert s.disk.hashCodes[target].postings == postings;
      }
    }
  }

  /** Rehashing one posting keeps the new partition tidy, up to one posting further. */
  lemma RehashOneTidy(d: Disk, c: Config, newId: int, target: int, at: int, p: HashCodePosting, fuel: nat)
    requires TargetTidy(d, newId, target, at)
    ensures var s := RehashOne(d, c, newId, target, at, p, fuel);
      s.result.Ok? ==> TargetTidy(s.disk, newId, target, at + HASH_CODE_POSTING_BYTE_SIZE)
  {
    var t := d.tables[newId];
    var so := Hashtable.SlotOffset(p.keyHashCode, t.capacity);
    var slot := SlotAt(t, so);
    if slot.Ok? {
      if slot.value.flag != FileHandler.FLAG_IN_USE {
        IntoBucketTidy(d, c, newId, target, at, p, so, slot.value);
      } else {
        IntoChainTidy(d, c, newId, target, at, p, slot.value, fuel);
      }
    }
  }

  lemma {:induction false} RehashPostingsTidy(d: Disk, c: Config, newId: int, target: int, pid: int, off: int, end: int, at: int, fuel: nat)
    requires off >= HEADER_BYTE_SIZE && TargetTidy(d, newId, target, at)
    ensures var s := RehashPostings(d, c, newId, target, pid, off, end, at, fuel);
      s.result.Ok? ==> TargetTidy(s.disk, newId, target, s.result.value)
    decreases end - off
  {
    if off < end {
      var p := HashCodeAt(d, pid, off).value;
      var next := NextHashCodeOffset(off);
      if p.flag == FileHandler.FLAG_DELETED {
        RehashPostingsSkips(d, c, newId, target, pid, off, end, at, fuel);
        RehashPostingsTidy(d, c, newId, target, pid, next, end, at, fuel);
      } else if p.flag != FileHandler.FLAG_NEVER_USED {
        RehashOneTidy(d, c, newId, target, at, p, fuel);
        var w := RehashOne(d, c, newId, target, at, p, fuel);
        RehashPostingsMoves(d, w, c, newId, target, pid, off, end, at, p, fuel);
        if w.result.Ok? {
          RehashPostingsTidy(w.disk, c, newId, target, pid, next, end, NextHashCodeOffset(at), fuel);
        }
      }
    }
  }

  lemma {:induction false} RehashPartitionsTidy(d: Disk, c: Config, newId: int, target: int, pid: int, top: int, at: int, fuel: nat)
    requires TargetTidy(d, newId, target, at)
    ensures var s := RehashPartitions(d, c, newId, target, pid, top, at, fuel);
      s.result.Ok? ==> TargetTidy(s.disk, newId, target, s.result.value)
    decreases top - pid + 1
  {
    if pid <= top {
      if pid !in d.hashCodes {
        RehashPartitionsTidy(d, c, newId, target, pid + 1, top, at, fuel);
      } else {
        var end := d.hashCodes[pid].header.nextPostingOffset;
        RehashPostingsTidy(d, c, newId, target, pid, HEADER_BYTE_SIZE, end, at, fuel);
        var r := RehashPostings(d, c, newId, target, pid, HEADER_BYTE_SIZE, end, at, fuel);
        if r.result.Ok? {
          RehashPartitionsTidy(r.disk, c, newId, target, pid + 1, top, r.result.value, fuel);
        }
      }
    }
  }

  /**
   * With the header written back, a rehash into a partition that did not
   * exist before leaves every posting of that partition below the header's
   * next free offset, so the next hash-code reservation that stays in it
   * lands where no posting is.
   */
  lemma RehashWithHeaderKeepsPostingsBelowHeader(d: Disk, c: Config, resolution: int, fuel: nat)
    requires d.md.currentHashCodesPartition + 1 !in d.hashCodes
    ensures var s := RehashWithHeader(d, c, resolution, fuel);
      var target := d.md.currentHashCodesPartition + 1;
      s.result.Ok? ==>
        target in s.disk.hashCodes
        && AllBelow(s.disk.hashCodes[target].postings, s.disk.hashCodes[target].header.nextPostingOffset)
        && s.disk.md.currentHashCodesPartition == target
    ensures var s := RehashWithHeader(d, c, resolution, fuel);
      var target := d.md.currentHashCodesPartition + 1;
      var next := HashCodeReserved(s.disk, c, HASH_CODE_POSTING_BYTE_SIZE).result;
      s.result.Ok? && next.Ok? && next.value.0 == target ==> next.value.1 !in s.disk.hashCodes[target].postings
  {
    var target := d.md.currentHashCodesPartition + 1;
    var newId := d.md.currentHashtableId + 1;
    var d1 := HashCodesOpened(RehashStarted(d, resolution), c, target);
    assert d1.hashCodes[target].postings == map[];
    assert d1.tables[newId].slots == map[];
    RehashPartitionsTidy(d1, c, newId, target, 0, target - 1, d1.hashCodes[target].header.nextPostingOffset, fuel);
  }

  // ---------------------------------------------------------------------
  // The rehash as written, on a store with one hash code

  const EXAMPLE_CONFIG: Config := Config(false, HEADER_BYTE_SIZE + 100 * HASH_CODE_POSTING_BYTE_SIZE, 4096, 4096, 8)

  /** The hash-code posting of hash code 7, in use since revision 0, whose first key is at offset 1024 of key partition 0. */
  const EXAMPLE_POSTING: HashCodePosting := HashCodePosting(FileHandler.FLAG_IN_USE, 0, -1, 7, -1, -1, 0, HEADER_BYTE_SIZE)

  /**
   * A store with hashtable generation 0 of 8 buckets, whose bucket for hash
   * code 7 points at the single posting of hash-code partition 0.
   */
  function ExampleDisk(): Disk
  {
    var size := EXAMPLE_CONFIG.hashCodesPartitionByteSize;
    Disk(
      Metadata.HeaderValue(1, 0, 0, 0, 0, 0, 0),
      map[0 := Table(8, map[Hashtable.SlotOffset(7, 8) := Hashtable.Posting(FileHandler.FLAG_IN_USE, 0, 0, HEADER_BYTE_SIZE, -1)])],
      map[0 := Partition(Advanced(Formatted<HashCodePosting>(size).header, HASH_CODE_POSTING_BYTE_SIZE), map[HEADER_BYTE_SIZE := EXAMPLE_POSTING])],
      map[], map[])
  }

  /**
   * Rehashing that store as written succeeds and puts the rehashed posting
   * at offset 1024 of the new partition 1, but leaves partition 1's header
   * saying nothing is written: the next hash-code reservation returns
   * (1, 1024), the place of that posting, which the next put then overwrites.
   */
  lemma RehashLeavesHeaderBehind()
    ensures var s := RehashSpec(ExampleDisk(), EXAMPLE_CONFIG, 8, 0);
      s.result.Ok?
      && 1 in s.disk.hashCodes && HEADER_BYTE_SIZE in s.disk.hashCodes[1].postings
      && HashCodeReserved(s.disk, EXAMPLE_CONFIG, HASH_CODE_POSTING_BYTE_SIZE).result == Ok((1, HEADER_BYTE_SIZE))
  {
    var c := EXAMPLE_CONFIG;
    var d := ExampleDisk();
    var d1 := HashCodesOpened(RehashStarted(d, 8), c, 1);
    assert d1.hashCodes[1] == Formatted(c.hashCodesPartitionByteSize);
    assert d1.tables[1] == Table(8, map[]);
    Hashtable.SlotInsideFile(7, 8);
    assert HashCodeAt(d1, 0, HEADER_BYTE_SIZE) == Ok(EXAMPLE_POSTING);
    var one := RehashOne(d1, c, 1, 1, HEADER_BYTE_SIZE, EXAMPLE_POSTING, 0);
    assert one.result.Ok?;
    assert one.disk.hashCodes[1].header == d1.hashCodes[1].header;
    assert HEADER_BYTE_SIZE in one.disk.hashCodes[1].postings;
    var end := HEADER_BYTE_SIZE + HASH_CODE_POSTING_BYTE_SIZE;
    assert RehashPostings(one.disk, c, 1, 1, 0, end, end, end, 0) == Step(Ok(end), one.disk);
    assert RehashPostings(d1, c, 1, 1, 0, HEADER_BYTE_SIZE, end, HEADER_BYTE_SIZE, 0) == Step(Ok(end), one.disk);
    assert RehashPartitions(one.disk, c, 1, 1, 1, 0, end, 0) == Step(Ok(end), one.disk);
  }
}
