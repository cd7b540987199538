/**
 * What the operations do together: a value put under a key into a bucket
 * never used is what get returns for that key at every later revision, and
 * containsKey then finds the key.
 */
module StoreScenarios {
  import opened Wrappers
  import opened JavaInt
  import opened Postings
  import opened StoreFiles
  import opened StoreWalks
  import opened StoreSpec
  import FileHandler
  import Hashtable
  import ValuesPartition

  /**
   * get finds what the first postings of a bucket hold: when the first
   * hash-code posting of the bucket is in use at the revision for the hash
   * code, and its first key posting is in use at the revision for the key,
   * get returns the payload of that key's value posting.
   */
  lemma GetAtChainHeads(
    e: Disk, c: Config, key: seq<byte>, hashCode: int, revision: int, fuel: nat,
    b: Bucket, hp: HashCodePosting, kp: KeyPosting, vp: ValuesPartition.Posting)
    requires |key| > 0 && BucketOf(e, hashCode) == Ok(b)
    requires HashCodeAt(e, b.posting.hashCodePostingPartition, b.posting.hashCodePostingPartitionOffset) == Ok(hp)
    requires HashCodeFlag(hp, revision) == Ok(FileHandler.FLAG_IN_USE) && hp.keyHashCode == hashCode
    requires KeyAt(e, hp.firstKeyPartition, hp.firstKeyOffset) == Ok(kp)
    requires KeyFlag(kp, revision) == Ok(FileHandler.FLAG_IN_USE) && kp.bytes == key
    requires kp.valueOffset >= 0 && ValueAt(e, kp.valuePartition, kp.valueOffset) == Ok(vp)
    ensures GetSpec(e, c, key, hashCode, revision, fuel).result == Ok(GetPayload(vp))
  {
    var pid := b.posting.hashCodePostingPartition;
    assert pid in e.hashCodes by {
      FileHandler.NeverUsedAtEveryRevision(hp.createdRevision, hp.deletedRevision, revision);
    }
    var first := HashCursor(pid, b.posting.hashCodePostingPartitionOffset, hp);
    assert FirstHashCode(e, c, b.posting) == Step(Ok(first), e);
    assert HashWalk(e, c, VisibleWithHash, hashCode, revision, first, fuel) == Step(Ok(HashStop(true, first)), e);
    assert hp.firstKeyPartition in e.keys by {
      FileHandler.NeverUsedAtEveryRevision(kp.createdRevision, kp.deletedRevision, revision);
    }
    var kc := KeyCursor(hp.firstKeyPartition, hp.firstKeyOffset, kp);
    assert FirstKey(e, c, hp) == Step(Ok(kc), e);
    assert KeyWalk(e, c, KeyVisible, key, revision, kc, None, fuel) == Step(Ok(KeyStop(true, kc, None)), e);
    assert ValueOf(e, c, kp).result == Ok(vp);
    assert GetFromKey(e, c, key, revision, hp, fuel).result == Ok(GetPayload(vp));
  }

  /**
   * doPut into a bucket never used leaves the bucket in use from the
   * revision, pointing at a new hash-code posting for the hash code whose
   * first key is the new key posting; no value posting is touched.
   */
  lemma PutNewBucketWrites(d: Disk, c: Config, hashCode: int, revision: int, nk: KeyPosting, keyAt: (int, int), b: Bucket)
    requires b.tableId in d.tables
    ensures var s := PutNewBucket(d, c, hashCode, revision, nk, keyAt, b);
      s.result.Ok? ==>
        s.disk.values == d.values && s.disk.md.currentHashtableId == d.md.currentHashtableId
        && b.tableId in s.disk.tables && s.disk.tables[b.tableId].capacity == d.tables[b.tableId].capacity
        && b.offset in s.disk.tables[b.tableId].slots
        && var slot := s.disk.tables[b.tableId].slots[b.offset];
          slot.flag == FileHandler.FLAG_IN_USE && slot.createdRevision == revision && slot.deletedRevision == -1
          && slot.hashCodePostingPartition >= d.md.currentHashCodesPartition
          && HashCodeAt(s.disk, slot.hashCodePostingPartition, slot.hashCodePostingPartitionOffset)
             == Ok(NewHashCodePosting(hashCode, revision, keyAt))
          && KeyAt(s.disk, keyAt.0, keyAt.1) == Ok(nk)
  {
    var s := PutNewBucket(d, c, hashCode, revision, nk, keyAt, b);
    if s.result.Ok? {
      var w := KeyWritten(d, c, keyAt.0, keyAt.1, nk);
      assert KeyAt(w.disk, keyAt.0, keyAt.1) == Ok(nk);
      var h := HashCodeReserved(w.disk, c, HASH_CODE_POSTING_BYTE_SIZE);
      var hashAt := h.result.value;
      var hp := NewHashCodePosting(hashCode, revision, keyAt);
      var w2 := HashCodeWritten(h.disk, c, hashAt.0, hashAt.1, hp);
      assert HashCodeAt(w2.disk, hashAt.0, hashAt.1) == Ok(hp);
      assert KeyAt(w2.disk, keyAt.0, keyAt.1) == Ok(nk);
    }
  }

  /** doPut's first step writes the value posting where it reserved it, and touches no other kind of file. */
  lemma PutValueWrites(d: Disk, c: Config, value: seq<byte>, revision: int)
    requires |value| > 0
    ensures var v := PutValue(d, c, value, revision);
      v.result.Ok? ==>
        ValueAt(v.disk, v.result.value.0, v.result.value.1) == Ok(NewValuePosting(value, revision))
        && v.disk.tables == d.tables && v.disk.hashCodes == d.hashCodes
        && v.disk.md == d.md.(currentValuesPartition := v.disk.md.currentValuesPartition)
  {
    var v := PutValue(d, c, value, revision);
    if v.result.Ok? {
      var vp := NewValuePosting(value, revision);
      var at := ValueReserved(d, c, ValuesPartition.PostingByteSize(vp));
      assert v == Step(Ok(at.result.value), ValueWritten(at.disk, c, at.result.value.0, at.result.value.1, vp).disk);
    }
  }

  /**
   * put into a bucket never used: the value posting is written, a key
   * posting pointing at it is reserved, and doPut goes on into the bucket.
   */
  lemma PutIntoUnusedBucketSteps(d: Disk, c: Config, key: seq<byte>, hashCode: int, value: seq<byte>, revision: int, fuel: nat)
    requires BucketOf(d, hashCode).Ok? && BucketOf(d, hashCode).value.posting.flag == FileHandler.FLAG_NEVER_USED
    requires |value| > 0
    ensures var s := PutSpec(d, c, key, hashCode, value, revision, fuel);
      var v := PutValue(d, c, value, revision);
      s.result.Ok? ==>
        |key| > 0 && v.result.Ok?
        && var nk := NewKeyPosting(key, hashCode, revision, v.result.value);
          var k := KeyReserved(v.disk, c, KeyPostingByteSize(nk));
          k.result.Ok?
          && s == PutNewBucket(k.disk, c, hashCode, revision, nk, k.result.value, BucketOf(d, hashCode).value)
          && k.disk.md.currentHashtableId == d.md.currentHashtableId && k.disk.tables == d.tables
          && k.disk.md.currentHashCodesPartition == d.md.currentHashCodesPartition
          && ValueAt(k.disk, v.result.value.0, v.result.value.1) == Ok(NewValuePosting(value, revision))
  {
    var s := PutSpec(d, c, key, hashCode, value, revision, fuel);
    if s.result.Ok? {
      PutValueWrites(d, c, value, revision);
      var v := PutValue(d, c, value, revision);
      var nk := NewKeyPosting(key, hashCode, revision, v.result.value);
      var k := KeyReserved(v.disk, c, KeyPostingByteSize(nk));
      assert k.disk.values == v.disk.values && k.disk.tables == d.tables;
      assert BucketOf(k.disk, hashCode) == BucketOf(d, hashCode);
    }
  }

  /**
   * The bucket of `hashCode` holding one hash code with one key, as a put
   * into a bucket never used leaves it at revision `created`: bucket,
   * hash-code, key and value postings all in use since `created`, none
   * deleted, each pointing at the next, with no further hash code or key
   * chained after them.
   */
  predicate OnlyKey(e: Disk, key: seq<byte>, hashCode: int, value: seq<byte>, created: int, b: Bucket, hp: HashCodePosting, kp: KeyPosting)
  {
    |key| > 0 && |value| > 0
    && BucketOf(e, hashCode) == Ok(b)
    && b.posting.flag == FileHandler.FLAG_IN_USE && b.posting.createdRevision == created && b.posting.deletedRevision == -1
    && b.posting.hashCodePostingPartition >= 0
    && HashCodeAt(e, b.posting.hashCodePostingPartition, b.posting.hashCodePostingPartitionOffset) == Ok(hp)
    && hp == NewHashCodePosting(hashCode, created, (hp.firstKeyPartition, hp.firstKeyOffset))
    && KeyAt(e, hp.firstKeyPartition, hp.firstKeyOffset) == Ok(kp)
    && kp == NewKeyPosting(key, hashCode, created, (kp.valuePartition, kp.valueOffset))
    && ValueAt(e, kp.valuePartition, kp.valueOffset) == Ok(NewValuePosting(value, created))
  }

  /**
   * A put of a non-empty value into a bucket never used returns null and
   * leaves the bucket holding that one key and value, in use from the put's
   * revision.
   */
  lemma PutIntoUnusedBucket(d: Disk, c: Config, key: seq<byte>, hashCode: int, value: seq<byte>, revision: int, fuel: nat)
    requires BucketOf(d, hashCode).Ok? && BucketOf(d, hashCode).value.posting.flag == FileHandler.FLAG_NEVER_USED
    requires |value| > 0 && d.md.currentHashCodesPartition >= 0
    ensures var s := PutSpec(d, c, key, hashCode, value, revision, fuel);
      s.result.Ok? ==>
        s.result.value == None
        && exists b, hp, kp :: OnlyKey(s.disk, key, hashCode, value, revision, b, hp, kp)
  {
    var s := PutSpec(d, c, key, hashCode, value, revision, fuel);
    if s.result.Ok? {
      PutIntoUnusedBucketSteps(d, c, key, hashCode, value, revision, fuel);
      var b := BucketOf(d, hashCode).value;
      var v := PutValue(d, c, value, revision);
      var nk := NewKeyPosting(key, hashCode, revision, v.result.value);
      var k := KeyReserved(v.disk, c, KeyPostingByteSize(nk));
      var keyAt := k.result.value;
      PutNewBucketWrites(k.disk, c, hashCode, revision, nk, keyAt, b);
      var e := s.disk;
      var slot := e.tables[b.tableId].slots[b.offset];
      assert BucketOf(e, hashCode) == Ok(Bucket(b.tableId, b.offset, slot));
      assert OnlyKey(e, key, hashCode, value, revision, Bucket(b.tableId, b.offset, slot), NewHashCodePosting(hashCode, revision, keyAt), nk);
    }
  }

  /** get in a bucket holding one key: the value, at the revision the key was put and every later one. */
  lemma GetOnlyKey(e: Disk, c: Config, key: seq<byte>, hashCode: int, value: seq<byte>, created: int, b: Bucket, hp: HashCodePosting, kp: KeyPosting, revision: int, fuel: nat)
    requires OnlyKey(e, key, hashCode, value, created, b, hp, kp) && created <= revision
    ensures GetSpec(e, c, key, hashCode, revision, fuel).result == Ok(Some(value))
  {
    GetAtChainHeads(e, c, key, hashCode, revision, fuel, b, hp, kp, NewValuePosting(value, created));
  }

  /**
   * A put into a bucket never used returns null, and from then on, at the
   * put's revision and every later one, get returns the value put.
   */
  lemma PutIntoUnusedBucketThenGet(d: Disk, c: Config, key: seq<byte>, hashCode: int, value: seq<byte>, revision: int, later: int, fuel: nat, getFuel: nat)
    requires BucketOf(d, hashCode).Ok? && BucketOf(d, hashCode).value.posting.flag == FileHandler.FLAG_NEVER_USED
    requires |value| > 0 && d.md.currentHashCodesPartition >= 0 && revision <= later
    ensures var s := PutSpec(d, c, key, hashCode, value, revision, fuel);
      s.result.Ok? ==>
        s.result.value == None && GetSpec(s.disk, c, key, hashCode, later, getFuel).result == Ok(Some(value))
  {
    var s := PutSpec(d, c, key, hashCode, value, revision, fuel);
    if s.result.Ok? {
      PutIntoUnusedBucket(d, c, key, hashCode, value, revision, fuel);
      var b, hp, kp :| OnlyKey(s.disk, key, hashCode, value, revision, b, hp, kp);
      GetOnlyKey(s.disk, c, key, hashCode, value, revision, b, hp, kp, later, getFuel);
    }
  }

  /** After that put, containsKey finds the key at the put's revision and every later one. */
  lemma PutIntoUnusedBucketThenContains(d: Disk, c: Config, key: seq<byte>, hashCode: int, value: seq<byte>, revision: int, later: int, fuel: nat, getFuel: nat)
    requires BucketOf(d, hashCode).Ok? && BucketOf(d, hashCode).value.posting.flag == FileHandler.FLAG_NEVER_USED
    requires |value| > 0 && d.md.currentHashCodesPartition >= 0 && revision <= later
    ensures var s := PutSpec(d, c, key, hashCode, value, revision, fuel);
      s.result.Ok? ==> ContainsSpec(s.disk, c, key, hashCode, later, getFuel).result == Ok(true)
  {
    var s := PutSpec(d, c, key, hashCode, value, revision, fuel);
    if s.result.Ok? {
      PutIntoUnusedBucketThenGet(d, c, key, hashCode, value, revision, later, fuel, getFuel);
      GetFoundImpliesContains(s.disk, c, key, hashCode, later, getFuel);
    }
  }

  /**
   * remove in a bucket holding one key, at a revision where that key is in
   * use, walks to it without opening or writing anything.
   */
  lemma RemoveFindsOnlyKey(e: Disk, c: Config, key: seq<byte>, hashCode: int, value: seq<byte>, created: int, b: Bucket, hp: HashCodePosting, kp: KeyPosting, revision: int, fuel: nat)
    requires OnlyKey(e, key, hashCode, value, created, b, hp, kp) && created <= revision
    ensures var hc := HashCursor(b.posting.hashCodePostingPartition, b.posting.hashCodePostingPartitionOffset, hp);
      var kc := KeyCursor(hp.firstKeyPartition, hp.firstKeyOffset, kp);
      FirstHashCode(e, c, b.posting) == Step(Ok(hc), e)
      && HashWalk(e, c, HashOnly, hashCode, revision, hc, fuel) == Step(Ok(HashStop(true, hc)), e)
      && FirstKey(e, c, hp) == Step(Ok(kc), e)
      && KeyWalk(e, c, KeyVisible, key, revision, kc, None, fuel) == Step(Ok(KeyStop(true, kc, None)), e)
  {
    assert b.posting.hashCodePostingPartition in e.hashCodes;
    assert hp.firstKeyPartition in e.keys;
  }

  /**
   * remove of the only key of a bucket, at a revision no earlier than its
   * put, returns the value and marks the bucket, hash-code, key and value
   * postings deleted at that revision; nothing else about them changes.
   */
  lemma RemoveOnlyKey(e: Disk, c: Config, key: seq<byte>, hashCode: int, value: seq<byte>, created: int, b: Bucket, hp: HashCodePosting, kp: KeyPosting, revision: int, fuel: nat)
    requires OnlyKey(e, key, hashCode, value, created, b, hp, kp) && created <= revision
    ensures var s := RemoveSpec(e, c, key, hashCode, revision, fuel);
      s.result == Ok(Some(value))
      && BucketOf(s.disk, hashCode) == Ok(b.(posting := MarkedSlot(b.posting, revision)))
      && HashCodeAt(s.disk, b.posting.hashCodePostingPartition, b.posting.hashCodePostingPartitionOffset) == Ok(MarkedHashCode(hp, revision))
      && KeyAt(s.disk, hp.firstKeyPartition, hp.firstKeyOffset) == Ok(MarkedKey(kp, revision))
      && ValueAt(s.disk, kp.valuePartition, kp.valueOffset) == Ok(MarkedValue(NewValuePosting(value, created), revision))
  {
    RemoveFindsOnlyKey(e, c, key, hashCode, value, created, b, hp, kp, revision, fuel);
    var slot := b.posting;
    var hc := HashCursor(slot.hashCodePostingPartition, slot.hashCodePostingPartitionOffset, hp);
    var kc := KeyCursor(hp.firstKeyPartition, hp.firstKeyOffset, kp);
    var e1 := HashCodeWritten(e, c, hc.partition, hc.offset, MarkedHashCode(hp, revision)).disk;
    assert Unlinked(e, c, revision, b, hc, kc, None, fuel) == SlotMarked(e1, b.tableId, b.offset, revision);
    var e2 := SlotWritten(e1, b.tableId, b.offset, MarkedSlot(slot, revision)).disk;
    assert SlotMarked(e1, b.tableId, b.offset, revision) == Step(Ok(()), e2);
    var e3 := KeyWritten(e2, c, kc.partition, kc.offset, MarkedKey(kp, revision)).disk;
    assert KeyMarked(e2, c, kc.partition, kc.offset, revision) == Step(Ok(()), e3);
    var vp := NewValuePosting(value, created);
    assert ValueOf(e3, c, kp) == Step(Ok(vp), e3);
    var e4 := ValueWritten(e3, c, kp.valuePartition, kp.valueOffset, MarkedValue(vp, revision)).disk;
    assert ReplacedValue(e3, c, kp, revision) == Step(Ok(Some(value)), e4);
    assert RemoveSpec(e, c, key, hashCode, revision, fuel) == Step(Ok(Some(value)), e4);
    assert BucketOf(e4, hashCode) == Ok(b.(posting := MarkedSlot(slot, revision)));
  }

  /**
   * remove at a revision before the only key of a bucket was put: the bucket
   * is not in use yet at that revision, so NoSuchElement, and no file is
   * opened or written.
   */
  lemma RemoveBeforePut(e: Disk, c: Config, key: seq<byte>, hashCode: int, value: seq<byte>, created: int, b: Bucket, hp: HashCodePosting, kp: KeyPosting, revision: int, fuel: nat)
    requires OnlyKey(e, key, hashCode, value, created, b, hp, kp) && revision < created
    ensures RemoveSpec(e, c, key, hashCode, revision, fuel) == Step(Err(NoSuchElement), e)
  {
    assert SlotFlag(b.posting, revision) == Ok(FileHandler.FLAG_NEVER_USED);
  }

  /**
   * A second remove of the only key of a bucket, at the revision of the
   * first or later: the key is no longer visible, so NoSuchElement, and the
   * files stay as the first remove left them.
   */
  lemma RemoveTwice(e: Disk, c: Config, key: seq<byte>, hashCode: int, value: seq<byte>, created: int, b: Bucket, hp: HashCodePosting, kp: KeyPosting, removed: int, revision: int, fuel: nat, again: nat)
    requires OnlyKey(e, key, hashCode, value, created, b, hp, kp) && created <= removed <= revision
    ensures var s := RemoveSpec(e, c, key, hashCode, removed, fuel);
      s.result == Ok(Some(value)) && RemoveSpec(s.disk, c, key, hashCode, revision, again) == Step(Err(NoSuchElement), s.disk)
  {
    RemoveOnlyKey(e, c, key, hashCode, value, created, b, hp, kp, removed, fuel);
    var s := RemoveSpec(e, c, key, hashCode, removed, fuel);
    assert SlotFlag(MarkedSlot(b.posting, removed), revision) == Ok(FileHandler.FLAG_DELETED);
  }

  /**
   * remove, in a bucket holding one key, of a key that is not there: a
   * different hash code sharing the bucket ends the hash-code walk, a
   * different key of the same hash code ends the key walk. Either way
   * NoSuchElement, and no file is opened or written.
   */
  lemma RemoveAbsentKey(e: Disk, c: Config, key: seq<byte>, hashCode: int, value: seq<byte>, created: int, b: Bucket, hp: HashCodePosting, kp: KeyPosting,
    other: seq<byte>, otherHashCode: int, revision: int, fuel: nat)
    requires OnlyKey(e, key, hashCode, value, created, b, hp, kp) && created <= revision
    requires |other| > 0 && BucketOf(e, otherHashCode) == Ok(b) && (other != key || otherHashCode != hashCode)
    ensures RemoveSpec(e, c, other, otherHashCode, revision, fuel) == Step(Err(NoSuchElement), e)
  {
    var hc := HashCursor(b.posting.hashCodePostingPartition, b.posting.hashCodePostingPartitionOffset, hp);
    assert b.posting.hashCodePostingPartition in e.hashCodes;
    assert FirstHashCode(e, c, b.posting) == Step(Ok(hc), e);
    if otherHashCode == hashCode {
      var kc := KeyCursor(hp.firstKeyPartition, hp.firstKeyOffset, kp);
      assert HashWalk(e, c, HashOnly, otherHashCode, revision, hc, fuel) == Step(Ok(HashStop(true, hc)), e);
      assert hp.firstKeyPartition in e.keys;
      assert FirstKey(e, c, hp) == Step(Ok(kc), e);
      assert KeyWalk(e, c, KeyVisible, other, revision, kc, None, fuel) == Step(Ok(KeyStop(false, kc, None)), e);
    } else {
      assert HashWalk(e, c, HashOnly, otherHashCode, revision, hc, fuel) == Step(Ok(HashStop(false, hc)), e);
    }
  }

  /**
   * get after the only key of a bucket was removed at revision `removed`:
   * at a revision from its put up to (not including) `removed` the value is
   * still read; from `removed` on the key is gone.
   */
  lemma GetAfterRemove(e: Disk, c: Config, key: seq<byte>, hashCode: int, value: seq<byte>, created: int, b: Bucket, hp: HashCodePosting, kp: KeyPosting, removed: int, revision: int, fuel: nat)
    requires OnlyKey(e, key, hashCode, value, created, b, hp, kp) && created <= removed && created <= revision
    ensures var s := RemoveSpec(e, c, key, hashCode, removed, fuel);
      GetSpec(s.disk, c, key, hashCode, revision, fuel).result == if revision < removed then Ok(Some(value)) else Ok(None)
  {
    RemoveOnlyKey(e, c, key, hashCode, value, created, b, hp, kp, removed, fuel);
    var s := RemoveSpec(e, c, key, hashCode, removed, fuel);
    var b' := b.(posting := MarkedSlot(b.posting, removed));
    var hp' := MarkedHashCode(hp, removed);
    if revision < removed {
      GetAtChainHeads(s.disk, c, key, hashCode, revision, fuel, b', hp', MarkedKey(kp, removed),
        MarkedValue(NewValuePosting(value, created), removed));
    } else {
      assert b'.posting.hashCodePostingPartition in s.disk.hashCodes;
      assert FirstHashCode(s.disk, c, b'.posting).result == Ok(HashCursor(b.posting.hashCodePostingPartition, b.posting.hashCodePostingPartitionOffset, hp'));
      assert HashCodeFlag(hp', revision) == Ok(FileHandler.FLAG_DELETED);
    }
  }

  /**
   * put at revision `put` into a bucket never used, then remove at
   * `removed`: remove returns the value, and get reads the value at the
   * revisions in between and nothing from `removed` on.
   */
  lemma PutThenRemoveThenGet(d: Disk, c: Config, key: seq<byte>, hashCode: int, value: seq<byte>, put: int, removed: int, revision: int, fuel: nat)
    requires BucketOf(d, hashCode).Ok? && BucketOf(d, hashCode).value.posting.flag == FileHandler.FLAG_NEVER_USED
    requires |value| > 0 && d.md.currentHashCodesPartition >= 0
    requires put <= removed && put <= revision
    ensures var s := PutSpec(d, c, key, hashCode, value, put, fuel);
      var r := RemoveSpec(s.disk, c, key, hashCode, removed, fuel);
      s.result.Ok? ==>
        r.result == Ok(Some(value))
        && GetSpec(r.disk, c, key, hashCode, revision, fuel).result == if revision < removed then Ok(Some(value)) else Ok(None)
  {
    var s := PutSpec(d, c, key, hashCode, value, put, fuel);
    if s.result.Ok? {
      PutIntoUnusedBucket(d, c, key, hashCode, value, put, fuel);
      var b, hp, kp :| OnlyKey(s.disk, key, hashCode, value, put, b, hp, kp);
      RemoveOnlyKey(s.disk, c, key, hashCode, value, put, b, hp, kp, removed, fuel);
      GetAfterRemove(s.disk, c, key, hashCode, value, put, b, hp, kp, removed, revision, fuel);
    }
  }

  /**
   * OnlyKey, with the store's one hash-code partition numbered 0 and the
   * key's hash-code posting the only one in it, at its start.
   */
  predicate OnlyKeyFirst(d: Disk, key: seq<byte>, hashCode: int, value: seq<byte>, created: int, b: Bucket, hp: HashCodePosting, kp: KeyPosting)
  {
    OnlyKey(d, key, hashCode, value, created, b, hp, kp)
    && d.md.currentHashCodesPartition == 0 && 1 !in d.hashCodes
    && b.posting.hashCodePostingPartition == 0 && b.posting.hashCodePostingPartitionOffset == HEADER_BYTE_SIZE
    && d.hashCodes[0].header.nextPostingOffset == HEADER_BYTE_SIZE + HASH_CODE_POSTING_BYTE_SIZE
  }

  // rehash to any capacity of a store whose only hash code is the one of a
  // bucket holding one key: the rehash succeeds, and get reads the value in
  // the new hashtable generation at every revision from the key's put on.

  /** The one posting of the old partition, rehashed into the new generation's empty bucket. */
  lemma RehashOnlyPosting(d: Disk, c: Config, key: seq<byte>, hashCode: int, value: seq<byte>, created: int, b: Bucket, hp: HashCodePosting, kp: KeyPosting, resolution: int, fuel: nat)
    requires OnlyKeyFirst(d, key, hashCode, value, created, b, hp, kp)
    requires 1 <= resolution && Hashtable.HEADER_BYTE_SIZE + Hashtable.POSTING_BYTE_SIZE * resolution <= MAX_INT
    ensures var newId := d.md.currentHashtableId + 1;
      var d1 := HashCodesOpened(RehashStarted(d, resolution), c, 1);
      var one := RehashOne(d1, c, newId, 1, HEADER_BYTE_SIZE, hp, fuel);
      HashCodeAt(d1, 0, HEADER_BYTE_SIZE) == Ok(hp)
      && one.result.Ok? && one.disk.hashCodes[1].postings[HEADER_BYTE_SIZE] == hp
      && one.disk.tables[newId] == Table(resolution, map[Hashtable.SlotOffset(hashCode, resolution) := ZERO_SLOT.(flag := FileHandler.FLAG_IN_USE, hashCodePostingPartition := 1, hashCodePostingPartitionOffset := HEADER_BYTE_SIZE)])
      && one.disk.keys == d.keys && one.disk.values == d.values
  {
    var newId := d.md.currentHashtableId + 1;
    var d1 := HashCodesOpened(RehashStarted(d, resolution), c, 1);
    assert d1.hashCodes[1] == Formatted(c.hashCodesPartitionByteSize);
    assert d1.tables[newId] == Table(resolution, map[]);
    assert HashCodeAt(d1, 0, HEADER_BYTE_SIZE) == Ok(hp);
    Hashtable.SlotInsideFile(hashCode, resolution);
  }

  /** The loop over the old partitions rehashes that one posting and nothing else. */
  lemma RehashOnlyPartition(d: Disk, c: Config, key: seq<byte>, hashCode: int, value: seq<byte>, created: int, b: Bucket, hp: HashCodePosting, kp: KeyPosting, resolution: int, fuel: nat)
    requires OnlyKeyFirst(d, key, hashCode, value, created, b, hp, kp)
    requires 1 <= resolution && Hashtable.HEADER_BYTE_SIZE + Hashtable.POSTING_BYTE_SIZE * resolution <= MAX_INT
    ensures var newId := d.md.currentHashtableId + 1;
      var d1 := HashCodesOpened(RehashStarted(d, resolution), c, 1);
      var one := RehashOne(d1, c, newId, 1, HEADER_BYTE_SIZE, hp, fuel);
      d1.hashCodes[1].header.nextPostingOffset == HEADER_BYTE_SIZE
      && RehashPartitions(d1, c, newId, 1, 0, 0, HEADER_BYTE_SIZE, fuel)
         == Step(Ok(HEADER_BYTE_SIZE + HASH_CODE_POSTING_BYTE_SIZE), one.disk)
  {
    var newId := d.md.currentHashtableId + 1;
    var d1 := HashCodesOpened(RehashStarted(d, resolution), c, 1);
    RehashOnlyPosting(d, c, key, hashCode, value, created, b, hp, kp, resolution, fuel);
    var one := RehashOne(d1, c, newId, 1, HEADER_BYTE_SIZE, hp, fuel);
    var end := HEADER_BYTE_SIZE + HASH_CODE_POSTING_BYTE_SIZE;
    assert RehashPostings(one.disk, c, newId, 1, 0, end, end, end, fuel) == Step(Ok(end), one.disk);
    assert RehashPostings(d1, c, newId, 1, 0, HEADER_BYTE_SIZE, end, HEADER_BYTE_SIZE, fuel) == Step(Ok(end), one.disk);
    assert RehashPartitions(one.disk, c, newId, 1, 1, 0, end, fuel) == Step(Ok(end), one.disk);
  }

  /** The loop of rehash copies that one posting and stops past it. */
  lemma RehashOnlyKeyLoop(d: Disk, c: Config, key: seq<byte>, hashCode: int, value: seq<byte>, created: int, b: Bucket, hp: HashCodePosting, kp: KeyPosting, resolution: int, fuel: nat)
    requires OnlyKeyFirst(d, key, hashCode, value, created, b, hp, kp)
    requires 1 <= resolution && Hashtable.HEADER_BYTE_SIZE + Hashtable.POSTING_BYTE_SIZE * resolution <= MAX_INT
    ensures var d1 := HashCodesOpened(RehashStarted(d, resolution), c, 1);
      var one := RehashOne(d1, c, d.md.currentHashtableId + 1, 1, HEADER_BYTE_SIZE, hp, fuel);
      RehashLoop(d, c, resolution, fuel) == Step(Ok(HEADER_BYTE_SIZE + HASH_CODE_POSTING_BYTE_SIZE), one.disk)
  {
    RehashOnlyPartition(d, c, key, hashCode, value, created, b, hp, kp, resolution, fuel);
    RehashLoopFromFirst(d, c, resolution, fuel);
  }

  /** The loop of rehash over a store whose current hash-code partition is 0 visits that partition alone. */
  lemma RehashLoopFromFirst(d: Disk, c: Config, resolution: int, fuel: nat)
    requires d.md.currentHashCodesPartition == 0
    ensures var d1 := HashCodesOpened(RehashStarted(d, resolution), c, 1);
      RehashLoop(d, c, resolution, fuel)
      == RehashPartitions(d1, c, d.md.currentHashtableId + 1, 1, 0, 0, d1.hashCodes[1].header.nextPostingOffset, fuel)
  {
    assert d.md.currentHashCodesPartition + 1 == 1;
  }

  /** The whole rehash ends with that one posting copied and the new generation current. */
  lemma RehashOnlyKeyDisk(d: Disk, c: Config, key: seq<byte>, hashCode: int, value: seq<byte>, created: int, b: Bucket, hp: HashCodePosting, kp: KeyPosting, resolution: int, fuel: nat)
    requires OnlyKeyFirst(d, key, hashCode, value, created, b, hp, kp)
    requires 1 <= resolution && Hashtable.HEADER_BYTE_SIZE + Hashtable.POSTING_BYTE_SIZE * resolution <= MAX_INT
    ensures var newId := d.md.currentHashtableId + 1;
      var d1 := HashCodesOpened(RehashStarted(d, resolution), c, 1);
      var one := RehashOne(d1, c, newId, 1, HEADER_BYTE_SIZE, hp, fuel);
      RehashSpec(d, c, resolution, fuel) == Step(Ok(()), one.disk.(md := one.disk.md.(currentHashtableId := newId)))
  {
    var newId := d.md.currentHashtableId + 1;
    var d1 := HashCodesOpened(RehashStarted(d, resolution), c, 1);
    var one := RehashOne(d1, c, newId, 1, HEADER_BYTE_SIZE, hp, fuel);
    RehashOnlyKeyLoop(d, c, key, hashCode, value, created, b, hp, kp, resolution, fuel);
  }

  /**
   * rehash of a store whose one key sits in partition 0: the bucket of its
   * hash code in the new generation points at a copy of its hash-code
   * posting at the start of partition 1.
   */
  lemma RehashMovesOnlyKey(d: Disk, c: Config, key: seq<byte>, hashCode: int, value: seq<byte>, created: int, b: Bucket, hp: HashCodePosting, kp: KeyPosting, resolution: int, fuel: nat)
    requires OnlyKeyFirst(d, key, hashCode, value, created, b, hp, kp)
    requires 1 <= resolution && Hashtable.HEADER_BYTE_SIZE + Hashtable.POSTING_BYTE_SIZE * resolution <= MAX_INT
    ensures var s := RehashSpec(d, c, resolution, fuel);
      var slot := ZERO_SLOT.(flag := FileHandler.FLAG_IN_USE, hashCodePostingPartition := 1, hashCodePostingPartitionOffset := HEADER_BYTE_SIZE);
      s.result.Ok?
      && BucketOf(s.disk, hashCode) == Ok(Bucket(d.md.currentHashtableId + 1, Hashtable.SlotOffset(hashCode, resolution), slot))
      && HashCodeAt(s.disk, 1, HEADER_BYTE_SIZE) == Ok(hp)
  {
    var newId := d.md.currentHashtableId + 1;
    var d1 := HashCodesOpened(RehashStarted(d, resolution), c, 1);
    RehashOnlyPosting(d, c, key, hashCode, value, created, b, hp, kp, resolution, fuel);
    Hashtable.SlotInsideFile(hashCode, resolution);
    var so := Hashtable.SlotOffset(hashCode, resolution);
    var slot := ZERO_SLOT.(flag := FileHandler.FLAG_IN_USE, hashCodePostingPartition := 1, hashCodePostingPartitionOffset := HEADER_BYTE_SIZE);
    var one := RehashOne(d1, c, newId, 1, HEADER_BYTE_SIZE, hp, fuel);
    RehashOnlyKeyDisk(d, c, key, hashCode, value, created, b, hp, kp, resolution, fuel);
    var e := one.disk.(md := one.disk.md.(currentHashtableId := newId));
    assert BucketOf(e, hashCode) == Ok(Bucket(newId, so, slot));
  }

  /**
   * rehash of a store whose one key sits in partition 0, then get: the key
   * keeps its value in the new hashtable generation.
   */
  lemma RehashThenGet(d: Disk, c: Config, key: seq<byte>, hashCode: int, value: seq<byte>, created: int, b: Bucket, hp: HashCodePosting, kp: KeyPosting, resolution: int, revision: int, fuel: nat, getFuel: nat)
    requires OnlyKeyFirst(d, key, hashCode, value, created, b, hp, kp) && created <= revision
    requires 1 <= resolution && Hashtable.HEADER_BYTE_SIZE + Hashtable.POSTING_BYTE_SIZE * resolution <= MAX_INT
    ensures var s := RehashSpec(d, c, resolution, fuel);
      s.result.Ok? && GetSpec(s.disk, c, key, hashCode, revision, getFuel).result == Ok(Some(value))
  {
    RehashMovesOnlyKey(d, c, key, hashCode, value, created, b, hp, kp, resolution, fuel);
    var e := RehashSpec(d, c, resolution, fuel).disk;
    var slot := ZERO_SLOT.(flag := FileHandler.FLAG_IN_USE, hashCodePostingPartition := 1, hashCodePostingPartitionOffset := HEADER_BYTE_SIZE);
    var nb := Bucket(d.md.currentHashtableId + 1, Hashtable.SlotOffset(hashCode, resolution), slot);
    GetAtChainHeads(e, c, key, hashCode, revision, getFuel, nb, hp, kp, NewValuePosting(value, created));
  }



  // ---------------------------------------------------------------------
  // Replacing the value of a key

  /** Every posting of every partition lies below its header's next free offset. */
  predicate Tidy<P>(m: map<int, Partition<P>>)
  {
    forall q, o :: q in m && o in m[q].postings ==> o < m[q].header.nextPostingOffset
  }

  /**
   * On tidy partitions a reservation hands out a place where no posting is,
   * and changes no posting.
   */
  lemma ReserveFresh<P>(m: map<int, Partition<P>>, current: int, size: int, requested: int)
    requires Tidy(m)
    ensures var r := Reserve(m, current, size, requested);
      r.offset.Ok? ==> r.current !in m || r.offset.value !in m[r.current].postings
    ensures var r := Reserve(m, current, size, requested);
      forall q :: q in m ==> q in r.partitions && r.partitions[q].postings == m[q].postings
  {
  }

  /**
   * A bucket whose one key is replaced by a put at revision `replaced`: the
   * hash-code posting's first key is the new key posting, which points at
   * the new value posting and, with durable links, at the old key posting;
   * the old key and value postings are marked deleted at `replaced`.
   */
  predicate Replacement(
    e: Disk, durable: bool, key: seq<byte>, hashCode: int, oldValue: seq<byte>, created: int,
    b: Bucket, hp: HashCodePosting, kp: KeyPosting,
    newValue: seq<byte>, replaced: int, keyAt: (int, int), valueAt: (int, int))
  {
    var oldAt := (hp.firstKeyPartition, hp.firstKeyOffset);
    var nk := NewKeyPosting(key, hashCode, replaced, valueAt);
    |key| > 0 && |newValue| > 0 && |oldValue| > 0
    && BucketOf(e, hashCode) == Ok(b)
    && HashCodeAt(e, b.posting.hashCodePostingPartition, b.posting.hashCodePostingPartitionOffset)
       == Ok(hp.(firstKeyPartition := keyAt.0, firstKeyOffset := keyAt.1))
    && hp.keyHashCode == hashCode && hp.flag == FileHandler.FLAG_IN_USE && hp.createdRevision == created
    && KeyAt(e, keyAt.0, keyAt.1) == Ok(if durable then nk.(nextPartition := oldAt.0, nextOffset := oldAt.1) else nk)
    && oldAt.0 >= 0
    && KeyAt(e, oldAt.0, oldAt.1) == Ok(MarkedKey(kp, replaced))
    && kp == NewKeyPosting(key, hashCode, created, (kp.valuePartition, kp.valueOffset))
    && ValueAt(e, valueAt.0, valueAt.1) == Ok(NewValuePosting(newValue, replaced))
    && ValueAt(e, kp.valuePartition, kp.valueOffset) == Ok(MarkedValue(NewValuePosting(oldValue, created), replaced))
  }

  /**
   * get after the replacement: from the replacing revision on, the new
   * value; before it, with durable links the old value, and without them
   * nothing, since the new key posting no longer leads to the old one.
   */
  lemma GetAfterReplace(
    e: Disk, c: Config, key: seq<byte>, hashCode: int, oldValue: seq<byte>, created: int,
    b: Bucket, hp: HashCodePosting, kp: KeyPosting,
    newValue: seq<byte>, replaced: int, keyAt: (int, int), valueAt: (int, int), revision: int, fuel: nat)
    requires Replacement(e, c.usingDurablePostingLinks, key, hashCode, oldValue, created, b, hp, kp, newValue, replaced, keyAt, valueAt)
    requires created <= revision && created <= replaced && fuel >= 1
    ensures GetSpec(e, c, key, hashCode, revision, fuel).result ==
      if replaced <= revision then Ok(Some(newValue))
      else if c.usingDurablePostingLinks then Ok(Some(oldValue))
      else Ok(None)
  {
    var hp' := hp.(firstKeyPartition := keyAt.0, firstKeyOffset := keyAt.1);
    var nk := NewKeyPosting(key, hashCode, replaced, valueAt);
    var head := if c.usingDurablePostingLinks then nk.(nextPartition := hp.firstKeyPartition, nextOffset := hp.firstKeyOffset) else nk;
    if replaced <= revision {
      GetAtChainHeads(e, c, key, hashCode, revision, fuel, b, hp', head, NewValuePosting(newValue, replaced));
    } else {
      var pid := b.posting.hashCodePostingPartition;
      assert pid in e.hashCodes;
      var first := HashCursor(pid, b.posting.hashCodePostingPartitionOffset, hp');
      assert FirstHashCode(e, c, b.posting) == Step(Ok(first), e);
      assert HashWalk(e, c, VisibleWithHash, hashCode, revision, first, fuel) == Step(Ok(HashStop(true, first)), e);
      assert keyAt.0 in e.keys;
      var kc := KeyCursor(keyAt.0, keyAt.1, head);
      assert FirstKey(e, c, hp') == Step(Ok(kc), e);
      assert KeyFlag(head, revision) == Ok(FileHandler.FLAG_NEVER_USED);
      if c.usingDurablePostingLinks {
        var oldAt := (hp.firstKeyPartition, hp.firstKeyOffset);
        assert oldAt.0 in e.keys;
        var oldKc := KeyCursor(oldAt.0, oldAt.1, MarkedKey(kp, replaced));
        assert KeyWalk(e, c, KeyVisible, key, revision, oldKc, Some(KeyCursor(oldAt.0, keyAt.1, head)), fuel - 1)
          == Step(Ok(KeyStop(true, oldKc, Some(KeyCursor(oldAt.0, keyAt.1, head)))), e);
        assert KeyWalk(e, c, KeyVisible, key, revision, kc, None, fuel).result.value.at == oldKc;
        assert ValueOf(e, c, MarkedKey(kp, replaced)).result == Ok(MarkedValue(NewValuePosting(oldValue, created), replaced));
      } else {
        assert KeyWalk(e, c, KeyVisible, key, revision, kc, None, fuel) == Step(Ok(KeyStop(false, kc, None)), e);
      }
    }
  }

  /** put's value posting, written on tidy value partitions, leaves every value posting already there as it was. */
  lemma PutValueKeepsValues(d: Disk, c: Config, value: seq<byte>, revision: int, pid: int, off: int)
    requires Tidy(d.values) && |value| > 0
    requires ValueAt(d, pid, off).Ok? && ValueAt(d, pid, off).value != ZERO_VALUE_POSTING
    ensures var v := PutValue(d, c, value, revision);
      v.result.Ok? ==>
        v.disk.keys == d.keys && ValueAt(v.disk, pid, off) == ValueAt(d, pid, off)
        && v.result.value != (pid, off)
  {
    var v := PutValue(d, c, value, revision);
    if v.result.Ok? {
      var vp := NewValuePosting(value, revision);
      var size := ValuesPartition.PostingByteSize(vp);
      ReserveFresh(d.values, d.md.currentValuesPartition, c.valuesPartitionByteSize, size);
      var at := ValueReserved(d, c, size);
      assert at.result.Ok?;
      assert ValueAt(at.disk, pid, off) == ValueAt(d, pid, off);
      assert at.result.value != (pid, off);
      ReadAfterWrite(at.disk.values, at.result.value.0, at.result.value.1, vp, c.valuesPartitionByteSize, pid, off, ZERO_VALUE_POSTING);
    }
  }

  /** A key reservation on tidy key partitions lands away from every key posting, and changes none. */
  lemma KeyReservedFresh(d: Disk, c: Config, requested: int, pid: int, off: int)
    requires Tidy(d.keys)
    requires KeyAt(d, pid, off).Ok? && KeyAt(d, pid, off).value != ZERO_KEY_POSTING
    ensures var k := KeyReserved(d, c, requested);
      k.result.Ok? ==> k.result.value != (pid, off) && KeyAt(k.disk, pid, off) == KeyAt(d, pid, off)
  {
    ReserveFresh(d.keys, d.md.currentKeysPartition, c.keysPartitionByteSize, requested);
  }

  /**
   * The steps of put over the only key of its bucket, before the chain is
   * relinked: the value and the key are reserved away from the old
   * postings, and the walks find the hash code and the key at their heads.
   */
  lemma ReplaceOnlyKeySteps(
    e: Disk, c: Config, key: seq<byte>, hashCode: int, oldValue: seq<byte>, created: int,
    b: Bucket, hp: HashCodePosting, kp: KeyPosting, newValue: seq<byte>, replaced: int, fuel: nat)
    requires OnlyKey(e, key, hashCode, oldValue, created, b, hp, kp)
    requires Tidy(e.keys) && Tidy(e.values) && created <= replaced && |newValue| > 0
    ensures PutSpec(e, c, key, hashCode, newValue, replaced, fuel).result.Ok? ==> PutValue(e, c, newValue, replaced).result.Ok?
    ensures var v := PutValue(e, c, newValue, replaced);
      PutSpec(e, c, key, hashCode, newValue, replaced, fuel).result.Ok? && v.result.Ok? ==>
        var nk := NewKeyPosting(key, hashCode, replaced, v.result.value);
        var k := KeyReserved(v.disk, c, KeyPostingByteSize(nk));
        var hc := HashCursor(b.posting.hashCodePostingPartition, b.posting.hashCodePostingPartitionOffset, hp);
        var kc := KeyCursor(hp.firstKeyPartition, hp.firstKeyOffset, kp);
        k.result.Ok?
        && ValueAt(v.disk, v.result.value.0, v.result.value.1) == Ok(NewValuePosting(newValue, replaced))
        && k.result.value != (hp.firstKeyPartition, hp.firstKeyOffset)
        && v.result.value != (kp.valuePartition, kp.valueOffset)
        && ValueAt(k.disk, v.result.value.0, v.result.value.1) == Ok(NewValuePosting(newValue, replaced))
        && OnlyKey(k.disk, key, hashCode, oldValue, created, b, hp, kp)
        && PutSpec(e, c, key, hashCode, newValue, replaced, fuel)
           == ReplacedAndValue(k.disk, c, replaced, nk, k.result.value, hc, kc, b)
  {
    var v := PutValue(e, c, newValue, replaced);
    if PutSpec(e, c, key, hashCode, newValue, replaced, fuel).result.Ok? {
      assert ValidKey(key).Ok?;
      assert v.result.Ok?;
      var nk := NewKeyPosting(key, hashCode, replaced, v.result.value);
      var k := KeyReserved(v.disk, c, KeyPostingByteSize(nk));
      assert k.result.Ok?;
      ReplaceReservesApart(e, c, key, hashCode, oldValue, created, b, hp, kp, newValue, replaced);
      RemoveFindsOnlyKey(k.disk, c, key, hashCode, oldValue, created, b, hp, kp, replaced, fuel);
    }
  }

  /** The value and the key put reserves lie away from the old postings, which the reservations leave readable. */
  lemma ReplaceReservesApart(
    e: Disk, c: Config, key: seq<byte>, hashCode: int, oldValue: seq<byte>, created: int,
    b: Bucket, hp: HashCodePosting, kp: KeyPosting, newValue: seq<byte>, replaced: int)
    requires OnlyKey(e, key, hashCode, oldValue, created, b, hp, kp)
    requires Tidy(e.keys) && Tidy(e.values) && |newValue| > 0
    requires PutValue(e, c, newValue, replaced).result.Ok?
    requires var v := PutValue(e, c, newValue, replaced);
      KeyReserved(v.disk, c, KeyPostingByteSize(NewKeyPosting(key, hashCode, replaced, v.result.value))).result.Ok?
    ensures var v := PutValue(e, c, newValue, replaced);
      var nk := NewKeyPosting(key, hashCode, replaced, v.result.value);
      var k := KeyReserved(v.disk, c, KeyPostingByteSize(nk));
      ValueAt(v.disk, v.result.value.0, v.result.value.1) == Ok(NewValuePosting(newValue, replaced))
      && k.result.value != (hp.firstKeyPartition, hp.firstKeyOffset)
      && v.result.value != (kp.valuePartition, kp.valueOffset)
      && ValueAt(k.disk, v.result.value.0, v.result.value.1) == Ok(NewValuePosting(newValue, replaced))
      && OnlyKey(k.disk, key, hashCode, oldValue, created, b, hp, kp)
  {
    var v := PutValue(e, c, newValue, replaced);
    PutValueWrites(e, c, newValue, replaced);
    PutValueKeepsValues(e, c, newValue, replaced, kp.valuePartition, kp.valueOffset);
    var nk := NewKeyPosting(key, hashCode, replaced, v.result.value);
    var k := KeyReserved(v.disk, c, KeyPostingByteSize(nk));
    KeyReservedFresh(v.disk, c, KeyPostingByteSize(nk), hp.firstKeyPartition, hp.firstKeyOffset);
    assert k.disk.tables == e.tables && k.disk.hashCodes == e.hashCodes && k.disk.values == v.disk.values;
    assert k.disk.md.currentHashtableId == e.md.currentHashtableId;
    assert BucketOf(k.disk, hashCode) == Ok(b);
  }

  /** The tail of put once its walks found `kc` under `hc` with no previous key posting. */
  function ReplacedAndValue(d: Disk, c: Config, revision: int, nk: KeyPosting, keyAt: (int, int), hc: HashCursor, kc: KeyCursor, b: Bucket): Step<Option<seq<byte>>>
  {
    var r :- Replaced(d, c, revision, nk, keyAt, hc, kc, None, b);
    ReplacedValue(r.1, c, kc.posting, revision)
  }

  /**
   * The relinking and the value's release leave the replacement in place,
   * and hand back the old value.
   */
  lemma ReplacedAndValueWrites(
    d: Disk, c: Config, key: seq<byte>, hashCode: int, oldValue: seq<byte>, created: int,
    b: Bucket, hp: HashCodePosting, kp: KeyPosting, newValue: seq<byte>, replaced: int, keyAt: (int, int), valueAt: (int, int))
    requires OnlyKey(d, key, hashCode, oldValue, created, b, hp, kp) && |newValue| > 0
    requires hp.firstKeyPartition >= 0
    requires keyAt != (hp.firstKeyPartition, hp.firstKeyOffset) && valueAt != (kp.valuePartition, kp.valueOffset)
    requires ValueAt(d, valueAt.0, valueAt.1) == Ok(NewValuePosting(newValue, replaced))
    ensures var hc := HashCursor(b.posting.hashCodePostingPartition, b.posting.hashCodePostingPartitionOffset, hp);
      var kc := KeyCursor(hp.firstKeyPartition, hp.firstKeyOffset, kp);
      var s := ReplacedAndValue(d, c, replaced, NewKeyPosting(key, hashCode, replaced, valueAt), keyAt, hc, kc, b);
      s.result.Ok? ==>
        s.result.value == Some(oldValue)
        && Replacement(s.disk, c.usingDurablePostingLinks, key, hashCode, oldValue, created, b, hp, kp, newValue, replaced, keyAt, valueAt)
  {
    var hc := HashCursor(b.posting.hashCodePostingPartition, b.posting.hashCodePostingPartitionOffset, hp);
    var kc := KeyCursor(hp.firstKeyPartition, hp.firstKeyOffset, kp);
    var nk := NewKeyPosting(key, hashCode, replaced, valueAt);
    var nk1 := if c.usingDurablePostingLinks then nk.(nextPartition := kc.partition, nextOffset := kc.offset) else nk;
    var s := ReplacedAndValue(d, c, replaced, nk, keyAt, hc, kc, b);
    if s.result.Ok? {
      var w := KeyWritten(d, c, keyAt.0, keyAt.1, nk1);
      assert w.result.Ok?;
      ReadAfterWrite(d.keys, keyAt.0, keyAt.1, nk1, c.keysPartitionByteSize, kc.partition, kc.offset, ZERO_KEY_POSTING);
      var w2 := KeyWritten(w.disk, c, kc.partition, kc.offset, MarkedKey(kp, replaced));
      assert w2.result.Ok?;
      ReadAfterWrite(w.disk.keys, kc.partition, kc.offset, MarkedKey(kp, replaced), c.keysPartitionByteSize, kc.partition, kc.offset, ZERO_KEY_POSTING);
      ReadAfterWrite(w.disk.keys, kc.partition, kc.offset, MarkedKey(kp, replaced), c.keysPartitionByteSize, keyAt.0, keyAt.1, ZERO_KEY_POSTING);
      ReadAfterWrite(d.keys, keyAt.0, keyAt.1, nk1, c.keysPartitionByteSize, keyAt.0, keyAt.1, ZERO_KEY_POSTING);
      var hp' := hp.(firstKeyPartition := keyAt.0, firstKeyOffset := keyAt.1);
      var w3 := HashCodeWritten(w2.disk, c, hc.partition, hc.offset, hp');
      assert w3.result.Ok?;
      ReadAfterWrite(w2.disk.hashCodes, hc.partition, hc.offset, hp', c.hashCodesPartitionByteSize, hc.partition, hc.offset, ZERO_HASH_CODE_POSTING);
      assert Replaced(d, c, replaced, nk, keyAt, hc, kc, None, b) == w3;
      var ov := NewValuePosting(oldValue, created);
      assert ValueAt(w3.disk, kp.valuePartition, kp.valueOffset) == Ok(ov);
      assert ValueOf(w3.disk, c, kp) == Step(Ok(ov), w3.disk);
      var w4 := ValueWritten(w3.disk, c, kp.valuePartition, kp.valueOffset, MarkedValue(ov, replaced));
      assert w4.result.Ok?;
      ReadAfterWrite(w3.disk.values, kp.valuePartition, kp.valueOffset, MarkedValue(ov, replaced), c.valuesPartitionByteSize, kp.valuePartition, kp.valueOffset, ZERO_VALUE_POSTING);
      ReadAfterWrite(w3.disk.values, kp.valuePartition, kp.valueOffset, MarkedValue(ov, replaced), c.valuesPartitionByteSize, valueAt.0, valueAt.1, ZERO_VALUE_POSTING);
      assert s == Step(Ok(Some(oldValue)), w4.disk);
      assert BucketOf(w4.disk, hashCode) == Ok(b);
    }
  }

  /**
   * put over a key in use, the only one of its bucket: it returns the value
   * the key had and leaves the replacement on disk.
   */
  lemma ReplaceOnlyKey(
    e: Disk, c: Config, key: seq<byte>, hashCode: int, oldValue: seq<byte>, created: int,
    b: Bucket, hp: HashCodePosting, kp: KeyPosting, newValue: seq<byte>, replaced: int, fuel: nat)
    requires OnlyKey(e, key, hashCode, oldValue, created, b, hp, kp) && hp.firstKeyPartition >= 0
    requires Tidy(e.keys) && Tidy(e.values) && created <= replaced && |newValue| > 0
    ensures var s := PutSpec(e, c, key, hashCode, newValue, replaced, fuel);
      s.result.Ok? ==>
        s.result.value == Some(oldValue)
        && exists keyAt, valueAt :: Replacement(s.disk, c.usingDurablePostingLinks, key, hashCode, oldValue, created, b, hp, kp, newValue, replaced, keyAt, valueAt)
  {
    var s := PutSpec(e, c, key, hashCode, newValue, replaced, fuel);
    if s.result.Ok? {
      ReplaceOnlyKeySteps(e, c, key, hashCode, oldValue, created, b, hp, kp, newValue, replaced, fuel);
      var v := PutValue(e, c, newValue, replaced);
      var nk := NewKeyPosting(key, hashCode, replaced, v.result.value);
      var k := KeyReserved(v.disk, c, KeyPostingByteSize(nk));
      ReplacedAndValueWrites(k.disk, c, key, hashCode, oldValue, created, b, hp, kp, newValue, replaced, k.result.value, v.result.value);
    }
  }

  /**
   * put over the only key of its bucket, then get: from the replacing
   * revision on, the new value; before it, the old value with durable
   * posting links and nothing without them.
   */
  lemma ReplaceThenGet(
    e: Disk, c: Config, key: seq<byte>, hashCode: int, oldValue: seq<byte>, created: int,
    b: Bucket, hp: HashCodePosting, kp: KeyPosting, newValue: seq<byte>, replaced: int, revision: int, fuel: nat, getFuel: nat)
    requires OnlyKey(e, key, hashCode, oldValue, created, b, hp, kp) && hp.firstKeyPartition >= 0
    requires Tidy(e.keys) && Tidy(e.values) && created <= replaced && |newValue| > 0
    requires created <= revision && getFuel >= 1
    ensures var s := PutSpec(e, c, key, hashCode, newValue, replaced, fuel);
      s.result.Ok? ==>
        s.result.value == Some(oldValue)
        && GetSpec(s.disk, c, key, hashCode, revision, getFuel).result ==
           if replaced <= revision then Ok(Some(newValue))
           else if c.usingDurablePostingLinks then Ok(Some(oldValue))
           else Ok(None)
  {
    var s := PutSpec(e, c, key, hashCode, newValue, replaced, fuel);
    if s.result.Ok? {
      ReplaceOnlyKey(e, c, key, hashCode, oldValue, created, b, hp, kp, newValue, replaced, fuel);
      var keyAt, valueAt :| Replacement(s.disk, c.usingDurablePostingLinks, key, hashCode, oldValue, created, b, hp, kp, newValue, replaced, keyAt, valueAt);
      GetAfterReplace(s.disk, c, key, hashCode, oldValue, created, b, hp, kp, newValue, replaced, keyAt, valueAt, revision, getFuel);
    }
  }

  // ---------------------------------------------------------------------
  // keys()

  /** Key postings stored back to back from an offset, as successive puts append them to a key partition. */
  function LaidOut(ps: seq<KeyPosting>, from: int): map<int, KeyPosting>
    decreases |ps|
  {
    if ps == [] then map[] else LaidOut(ps[1..], from + KeyPostingByteSize(ps[0]))[from := ps[0]]
  }

  /** Where the i-th of those postings starts; the i-th after the last is where the next one would go. */
  function LaidOutOffset(ps: seq<KeyPosting>, from: int, i: nat): (o: int)
    requires i <= |ps|
    ensures o >= from && (i > 0 ==> o > from)
    decreases i
  {
    if i == 0 then from else LaidOutOffset(ps[1..], from + KeyPostingByteSize(ps[0]), i - 1)
  }

  lemma {:induction false} LaidOutBounds(ps: seq<KeyPosting>, from: int)
    ensures forall o :: o in LaidOut(ps, from) ==> from <= o < LaidOutOffset(ps, from, |ps|)
    decreases |ps|
  {
    if ps != [] {
      LaidOutBounds(ps[1..], from + KeyPostingByteSize(ps[0]));
    }
  }

  lemma {:induction false} LaidOutHolds(ps: seq<KeyPosting>, from: int, i: nat)
    requires i < |ps|
    ensures LaidOutOffset(ps, from, i) in LaidOut(ps, from) && LaidOut(ps, from)[LaidOutOffset(ps, from, i)] == ps[i]
    ensures LaidOutOffset(ps, from, i + 1) == LaidOutOffset(ps, from, i) + KeyPostingByteSize(ps[i])
    decreases i
  {
    if i > 0 {
      LaidOutHolds(ps[1..], from + KeyPostingByteSize(ps[0]), i - 1);
    }
  }

  /**
   * keys() over a store whose only key partition holds postings back to
   * back from its first posting, all written and visible at the revision:
   * read from the start of the i-th, next() returns the i-th and moves to
   * the (i+1)-th; read after the last, it returns null.
   */
  lemma CursorReadsLaidOutInOrder(h: ValuesPartition.Header, ps: seq<KeyPosting>, revision: int, i: nat)
    requires forall j :: 0 <= j < |ps| ==> ps[j].flag != FileHandler.FLAG_NEVER_USED && VisibleToCursor(ps[j], revision)
    requires i <= |ps|
    ensures var keys := map[0 := Partition(h, LaidOut(ps, HEADER_BYTE_SIZE))];
      CursorNext(keys, CursorPosition(0, LaidOutOffset(ps, HEADER_BYTE_SIZE, i)), revision)
      == if i < |ps| then (Some(ps[i]), CursorPosition(0, LaidOutOffset(ps, HEADER_BYTE_SIZE, i + 1)))
         else (None, CursorPosition(1, HEADER_BYTE_SIZE))
  {
    var keys := map[0 := Partition(h, LaidOut(ps, HEADER_BYTE_SIZE))];
    var at := CursorPosition(0, LaidOutOffset(ps, HEADER_BYTE_SIZE, i));
    if i < |ps| {
      LaidOutHolds(ps, HEADER_BYTE_SIZE, i);
      CursorNextIsFirstStop(keys, [at], revision);
    } else {
      LaidOutBounds(ps, HEADER_BYTE_SIZE);
      assert PostingUnderCursor(keys, at) == ZERO_KEY_POSTING;
      CursorNextIsFirstStop(keys, [at, CursorPosition(1, HEADER_BYTE_SIZE)], revision);
    }
  }

  /**
   * Four keys put at revision 0 one after another: a new cursor returns
   * them in the order they were put, then null.
   */
  lemma CursorReturnsKeysInPutOrder(h: ValuesPartition.Header, k0: KeyPosting, k1: KeyPosting, k2: KeyPosting, k3: KeyPosting)
    requires k0.flag == FileHandler.FLAG_IN_USE && k0.createdRevision == 0 && k0.deletedRevision == -1
    requires k1.flag == FileHandler.FLAG_IN_USE && k1.createdRevision == 0 && k1.deletedRevision == -1
    requires k2.flag == FileHandler.FLAG_IN_USE && k2.createdRevision == 0 && k2.deletedRevision == -1
    requires k3.flag == FileHandler.FLAG_IN_USE && k3.createdRevision == 0 && k3.deletedRevision == -1
    ensures var keys := map[0 := Partition(h, LaidOut([k0, k1, k2, k3], HEADER_BYTE_SIZE))];
      var r0 := CursorNext(keys, CursorPosition(0, HEADER_BYTE_SIZE), 0);
      var r1 := CursorNext(keys, r0.1, 0);
      var r2 := CursorNext(keys, r1.1, 0);
      var r3 := CursorNext(keys, r2.1, 0);
      var r4 := CursorNext(keys, r3.1, 0);
      r0.0 == Some(k0) && r1.0 == Some(k1) && r2.0 == Some(k2) && r3.0 == Some(k3) && r4.0 == None
  {
    var ps := [k0, k1, k2, k3];
    CursorReadsLaidOutInOrder(h, ps, 0, 0);
    CursorReadsLaidOutInOrder(h, ps, 0, 1);
    CursorReadsLaidOutInOrder(h, ps, 0, 2);
    CursorReadsLaidOutInOrder(h, ps, 0, 3);
    CursorReadsLaidOutInOrder(h, ps, 0, 4);
  }
}
