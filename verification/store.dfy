/**
 * The store operations as the store runs them, through an accessor: each
 * walks the chains with a loop, reads and writes postings through the
 * partitions the accessor opens, and leaves the files exactly as the
 * function of the same name in StoreSpec says. A walk that would not end is
 * excluded by the precondition that the specification, given `fuel` steps
 * per walk, does not report `Diverges`.
 */
module StoreOperations {
  import opened Wrappers
  import opened JavaInt
  import opened Postings
  import opened StoreFiles
  import opened StoreWalks
  import opened StoreSpec
  import opened StoreAccessor
  import FileHandler
  import Hashtable
  import ValuesPartition

  /** The hash-code loop shared by the operations, from posting `start` on. */
  method SeekHashCode(acc: Accessor, mode: HashMatch, hashCode: int, revision: int, start: HashCursor, ghost fuel: nat)
    returns (r: Result<HashStop>)
    requires acc.Valid()
    requires HashWalk(acc.disk, acc.config, mode, hashCode, revision, start, fuel).result != Err(Diverges)
    modifies acc
    ensures acc.Valid() && acc.hashtable == old(acc.hashtable)
    ensures Step(r, acc.disk) == HashWalk(old(acc.disk), acc.config, mode, hashCode, revision, start, fuel)
  {
    var at := start;
    ghost var f := fuel;
    while true
      invariant acc.Valid() && acc.hashtable == old(acc.hashtable)
      invariant HashWalk(acc.disk, acc.config, mode, hashCode, revision, at, f)
        == HashWalk(old(acc.disk), acc.config, mode, hashCode, revision, start, fuel)
      invariant HashWalk(acc.disk, acc.config, mode, hashCode, revision, at, f).result != Err(Diverges)
      decreases f
    {
      var m := HashMatches(mode, hashCode, revision, at.posting);
      if m.Err? {
        return Err(m.error);
      }
      if m.value {
        return Ok(HashStop(true, at));
      }
      var next := at.posting.nextPartition;
      if next < 0 {
        return Ok(HashStop(false, at));
      }
      if next != at.partition {
        acc.GetHashCodesPartition(next);
      }
      var p := HashCodeAt(acc.disk, next, at.posting.nextOffset);
      if p.Err? {
        return Err(p.error);
      }
      at := HashCursor(next, at.posting.nextOffset, p.value);
      f := f - 1;
    }
  }

  /** The key loop shared by the operations, from posting `start` on. */
  method SeekKey(acc: Accessor, mode: KeyMatch, key: seq<byte>, revision: int, start: KeyCursor, ghost fuel: nat)
    returns (r: Result<KeyStop>)
    requires acc.Valid()
    requires KeyWalk(acc.disk, acc.config, mode, key, revision, start, None, fuel).result != Err(Diverges)
    modifies acc
    ensures acc.Valid() && acc.hashtable == old(acc.hashtable)
    ensures Step(r, acc.disk) == KeyWalk(old(acc.disk), acc.config, mode, key, revision, start, None, fuel)
  {
    var at := start;
    var previous: Option<KeyCursor> := None;
    ghost var f := fuel;
    while true
      invariant acc.Valid() && acc.hashtable == old(acc.hashtable)
      invariant KeyWalk(acc.disk, acc.config, mode, key, revision, at, previous, f)
        == KeyWalk(old(acc.disk), acc.config, mode, key, revision, start, None, fuel)
      invariant KeyWalk(acc.disk, acc.config, mode, key, revision, at, previous, f).result != Err(Diverges)
      decreases f
    {
      var m := KeyMatches(mode, key, revision, at.posting);
      if m.Err? {
        return Err(m.error);
      }
      if m.value {
        return Ok(KeyStop(true, at, previous));
      }
      var next := at.posting.nextPartition;
      if next < 0 {
        return Ok(KeyStop(false, at, previous));
      }
      if next != at.partition {
        var _ := acc.GetKeysPartition(next, true);
      }
      // The previous posting is recorded with the partition just switched to.
      previous := Some(KeyCursor(next, at.offset, at.posting));
      var p := KeyAt(acc.disk, next, at.posting.nextOffset);
      if p.Err? {
        return Err(p.error);
      }
      at := KeyCursor(next, at.posting.nextOffset, p.value);
      f := f - 1;
    }
  }

  /** The loop of a durable remove that seeks the last posting of the key chain from (`partition`, `offset`). */
  method SeekLastKey(acc: Accessor, partition: int, offset: int, ghost fuel: nat) returns (r: Result<KeyCursor>)
    requires acc.Valid()
    requires LastKeyWalk(acc.disk, acc.config, partition, offset, fuel).result != Err(Diverges)
    modifies acc
    ensures acc.Valid() && acc.hashtable == old(acc.hashtable)
    ensures Step(r, acc.disk) == LastKeyWalk(old(acc.disk), acc.config, partition, offset, fuel)
  {
    var pid, off := partition, offset;
    ghost var f := fuel;
    while true
      invariant acc.Valid() && acc.hashtable == old(acc.hashtable)
      invariant LastKeyWalk(acc.disk, acc.config, pid, off, f) == LastKeyWalk(old(acc.disk), acc.config, partition, offset, fuel)
      invariant LastKeyWalk(acc.disk, acc.config, pid, off, f).result != Err(Diverges)
      decreases f
    {
      var _ := acc.GetKeysPartition(pid, true);
      var p := KeyAt(acc.disk, pid, off);
      if p.Err? {
        return Err(p.error);
      }
      if p.value.nextPartition < 0 {
        return Ok(KeyCursor(pid, off, p.value));
      }
      pid, off := p.value.nextPartition, p.value.nextOffset;
      f := f - 1;
    }
  }

  /** The bucket of a hash code in the hashtable generation the accessor holds open. */
  method ReadBucket(acc: Accessor, hashCode: int) returns (r: Result<Bucket>)
    requires acc.Valid()
    modifies acc
    ensures acc.Valid() && acc.disk == old(acc.disk)
    ensures r == BucketOf(acc.disk, hashCode)
  {
    var table := acc.GetHashtable();
    if table.Err? {
      return Err(table.error);
    }
    var offset := Hashtable.SlotOffset(hashCode, table.value.capacity);
    var slot := SlotAt(acc.disk.tables[table.value.versionId], offset);
    if slot.Err? {
      return Err(slot.error);
    }
    r := Ok(Bucket(table.value.versionId, offset, slot.value));
  }

  /** The first hash-code posting a bucket points at. */
  method ReadFirstHashCode(acc: Accessor, slot: Hashtable.Posting) returns (r: Result<HashCursor>)
    requires acc.Valid()
    modifies acc
    ensures acc.Valid() && acc.hashtable == old(acc.hashtable)
    ensures Step(r, acc.disk) == FirstHashCode(old(acc.disk), acc.config, slot)
  {
    var pid := slot.hashCodePostingPartition;
    acc.GetHashCodesPartition(pid);
    var p := HashCodeAt(acc.disk, pid, slot.hashCodePostingPartitionOffset);
    if p.Err? {
      return Err(p.error);
    }
    r := Ok(HashCursor(pid, slot.hashCodePostingPartitionOffset, p.value));
  }

  /** The first key posting of a hash-code posting. */
  method ReadFirstKey(acc: Accessor, h: HashCodePosting) returns (r: Result<KeyCursor>)
    requires acc.Valid()
    modifies acc
    ensures acc.Valid() && acc.hashtable == old(acc.hashtable)
    ensures Step(r, acc.disk) == FirstKey(old(acc.disk), acc.config, h)
  {
    var _ := acc.GetKeysPartition(h.firstKeyPartition, true);
    var p := KeyAt(acc.disk, h.firstKeyPartition, h.firstKeyOffset);
    if p.Err? {
      return Err(p.error);
    }
    r := Ok(KeyCursor(h.firstKeyPartition, h.firstKeyOffset, p.value));
  }

  /** The value posting a key posting points at. */
  method ReadValue(acc: Accessor, k: KeyPosting) returns (r: Result<ValuesPartition.Posting>)
    requires acc.Valid()
    modifies acc
    ensures acc.Valid() && acc.hashtable == old(acc.hashtable)
    ensures Step(r, acc.disk) == ValueOf(old(acc.disk), acc.config, k)
  {
    acc.GetValuesPartition(k.valuePartition);
    r := ValueAt(acc.disk, k.valuePartition, k.valueOffset);
  }

  class Store {
    const configuration: Config

    constructor (configuration: Config)
      ensures this.configuration == configuration
    {
      this.configuration := configuration;
    }

    /** get(key, hashCode, revision). */
    method Get(acc: Accessor, key: seq<byte>, hashCode: int, revision: int, ghost fuel: nat)
      returns (r: Result<Option<seq<byte>>>)
      requires acc.Valid() && acc.config == configuration
      requires GetSpec(acc.disk, configuration, key, hashCode, revision, fuel).result != Err(Diverges)
      modifies acc
      ensures acc.Valid()
      ensures Step(r, acc.disk) == GetSpec(old(acc.disk), configuration, key, hashCode, revision, fuel)
    {
      if |key| == 0 {
        return Err(IllegalArgument("Null key is not allowed"));
      }
      var bucket := ReadBucket(acc, hashCode);
      if bucket.Err? {
        return Err(bucket.error);
      }
      var first := ReadFirstHashCode(acc, bucket.value.posting);
      if first.Err? {
        return Err(first.error);
      }
      var flag := HashCodeFlag(first.value.posting, revision);
      if flag.Err? {
        return Err(flag.error);
      }
      if flag.value != FileHandler.FLAG_IN_USE {
        return Ok(None);
      }
      r := GetFromHashCode(acc, key, hashCode, revision, first.value, fuel);
    }

    method GetFromHashCode(acc: Accessor, key: seq<byte>, hashCode: int, revision: int, first: HashCursor, ghost fuel: nat)
      returns (r: Result<Option<seq<byte>>>)
      requires acc.Valid() && acc.config == configuration
      requires StoreSpec.GetFromHashCode(acc.disk, configuration, key, hashCode, revision, first, fuel).result != Err(Diverges)
      modifies acc
      ensures acc.Valid()
      ensures Step(r, acc.disk) == StoreSpec.GetFromHashCode(old(acc.disk), configuration, key, hashCode, revision, first, fuel)
    {
      var hw := SeekHashCode(acc, VisibleWithHash, hashCode, revision, first, fuel);
      if hw.Err? {
        return Err(hw.error);
      }
      if !hw.value.found {
        return Ok(None);
      }
      var k := ReadFirstKey(acc, hw.value.at.posting);
      if k.Err? {
        return Err(k.error);
      }
      var kw := SeekKey(acc, KeyVisible, key, revision, k.value, fuel);
      if kw.Err? {
        return Err(kw.error);
      }
      if !kw.value.found {
        return Ok(None);
      }
      var v := ReadValue(acc, kw.value.at.posting);
      if v.Err? {
        return Err(v.error);
      }
      r := Ok(GetPayload(v.value));
    }

    /** put(key, hashCode, value, revision), doPut included: the value the key had, if any. */
    method Put(acc: Accessor, key: seq<byte>, hashCode: int, value: seq<byte>, revision: int, ghost fuel: nat)
      returns (r: Result<Option<seq<byte>>>)
      requires acc.Valid() && acc.config == configuration
      requires PutSpec(acc.disk, configuration, key, hashCode, value, revision, fuel).result != Err(Diverges)
      modifies acc
      ensures acc.Valid()
      ensures Step(r, acc.disk) == PutSpec(old(acc.disk), configuration, key, hashCode, value, revision, fuel)
    {
      if |key| == 0 {
        return Err(IllegalArgument("Null key is not allowed"));
      }
      var v := WriteNewValue(acc, value, revision);
      if v.Err? {
        return Err(v.error);
      }
      var nk := NewKeyPosting(key, hashCode, revision, v.value);
      var k := acc.RequestKeyWrite(KeyPostingByteSize(nk));
      if k.Err? {
        return Err(k.error);
      }
      var bucket := ReadBucket(acc, hashCode);
      if bucket.Err? {
        return Err(bucket.error);
      }
      if bucket.value.posting.flag == FileHandler.FLAG_NEVER_USED {
        r := AddBucket(acc, hashCode, revision, nk, k.value, bucket.value);
      } else {
        r := PutInBucket(acc, key, hashCode, revision, nk, k.value, bucket.value, fuel);
      }
    }

    /** remove(key, hashCode, revision), doRemove included: the value the key had. */
    method Remove(acc: Accessor, key: seq<byte>, hashCode: int, revision: int, ghost fuel: nat)
      returns (r: Result<Option<seq<byte>>>)
      requires acc.Valid() && acc.config == configuration
      requires RemoveSpec(acc.disk, configuration, key, hashCode, revision, fuel).result != Err(Diverges)
      modifies acc
      ensures acc.Valid()
      ensures Step(r, acc.disk) == RemoveSpec(old(acc.disk), configuration, key, hashCode, revision, fuel)
    {
      if |key| == 0 {
        return Err(IllegalArgument("Null key is not allowed"));
      }
      var bucket := ReadBucket(acc, hashCode);
      if bucket.Err? {
        return Err(bucket.error);
      }
      var b := bucket.value;
      var flag := SlotFlag(b.posting, revision);
      if flag.Err? {
        return Err(flag.error);
      }
      if flag.value != FileHandler.FLAG_IN_USE {
        return Err(NoSuchElement);
      }
      if b.posting.hashCodePostingPartition < 0 {
        return Err(StoreInconsistency);
      }
      var first := ReadFirstHashCode(acc, b.posting);
      if first.Err? {
        return Err(first.error);
      }
      var hw := SeekHashCode(acc, HashOnly, hashCode, revision, first.value, fuel);
      if hw.Err? {
        return Err(hw.error);
      }
      if !hw.value.found {
        return Err(NoSuchElement);
      }
      var k := ReadFirstKey(acc, hw.value.at.posting);
      if k.Err? {
        return Err(k.error);
      }
      var kw := SeekKey(acc, KeyVisible, key, revision, k.value, fuel);
      if kw.Err? {
        return Err(kw.error);
      }
      if !kw.value.found {
        return Err(NoSuchElement);
      }
      var cur := kw.value.at;
      var u := Unlink(acc, revision, b, hw.value.at, cur, kw.value.previous, fuel);
      if u.Err? {
        return Err(u.error);
      }
      var m := acc.MarkKey(cur.partition, cur.offset, revision);
      if m.Err? {
        return Err(m.error);
      }
      r := ReleaseValue(acc, cur.posting, revision);
    }

    /** rehash(resolution): the hash codes of the old partitions rehashed into a new generation. */
    method Rehash(acc: Accessor, resolution: int, ghost fuel: nat) returns (r: Result<()>)
      requires acc.Valid() && acc.config == configuration
      requires RehashSpec(acc.disk, configuration, resolution, fuel).result != Err(Diverges)
      modifies acc
      ensures acc.Valid()
      ensures Step(r, acc.disk) == RehashSpec(old(acc.disk), configuration, resolution, fuel)
    {
      var top := acc.disk.md.currentHashCodesPartition;
      var newId := acc.disk.md.currentHashtableId + 1;
      acc.disk := RehashStarted(acc.disk, resolution);
      acc.GetHashCodesPartition(top + 1);
      var w := RehashOldPartitions(acc, newId, top, acc.disk.hashCodes[top + 1].header.nextPostingOffset, fuel);
      if w.Err? {
        return Err(w.error);
      }
      acc.disk := acc.disk.(md := acc.disk.md.(currentHashtableId := newId));
      r := Ok(());
    }

    /** containsKey(key, hashCode, revision). */
    method ContainsKey(acc: Accessor, key: seq<byte>, hashCode: int, revision: int, ghost fuel: nat)
      returns (r: Result<bool>)
      requires acc.Valid() && acc.config == configuration
      requires ContainsSpec(acc.disk, configuration, key, hashCode, revision, fuel).result != Err(Diverges)
      modifies acc
      ensures acc.Valid()
      ensures Step(r, acc.disk) == ContainsSpec(old(acc.disk), configuration, key, hashCode, revision, fuel)
    {
      if |key| == 0 {
        return Err(IllegalArgument("Null key is not allowed"));
      }
      var bucket := ReadBucket(acc, hashCode);
      if bucket.Err? {
        return Err(bucket.error);
      }
      var first := ReadFirstHashCode(acc, bucket.value.posting);
      if first.Err? {
        return Err(first.error);
      }
      if first.value.posting.flag == FileHandler.FLAG_NEVER_USED {
        return Ok(false);
      }
      var hw := SeekHashCode(acc, HashWithVisible, hashCode, revision, first.value, fuel);
      if hw.Err? {
        return Err(hw.error);
      }
      if !hw.value.found {
        return Ok(false);
      }
      var k := ReadFirstKey(acc, hw.value.at.posting);
      if k.Err? {
        return Err(k.error);
      }
      var kw := SeekKey(acc, KeyVisibleCreated, key, revision, k.value, fuel);
      if kw.Err? {
        return Err(kw.error);
      }
      r := Ok(kw.value.found);
    }
  }

  // ---------------------------------------------------------------------
  // The phases of doPut

  /** doPut's value posting, written at a reservation unless the value is empty. */
  method WriteNewValue(acc: Accessor, value: seq<byte>, revision: int) returns (r: Result<(int, int)>)
    requires acc.Valid()
    modifies acc
    ensures acc.Valid()
    ensures Step(r, acc.disk) == PutValue(old(acc.disk), acc.config, value, revision)
  {
    if |value| == 0 {
      return Ok((-1, -1));
    }
    var vp := NewValuePosting(value, revision);
    var at := acc.RequestValueWrite(ValuesPartition.PostingByteSize(vp));
    if at.Err? {
      return Err(at.error);
    }
    var w := acc.WriteValue(at.value.0, at.value.1, vp);
    if w.Err? {
      return Err(w.error);
    }
    r := Ok(at.value);
  }

  /** doPut into a bucket never used. */
  method AddBucket(acc: Accessor, hashCode: int, revision: int, nk: KeyPosting, keyAt: (int, int), bucket: Bucket)
    returns (r: Result<Option<seq<byte>>>)
    requires acc.Valid()
    modifies acc
    ensures acc.Valid()
    ensures Step(r, acc.disk) == PutNewBucket(old(acc.disk), acc.config, hashCode, revision, nk, keyAt, bucket)
  {
    var w := acc.WriteKey(keyAt.0, keyAt.1, nk);
    if w.Err? {
      return Err(w.error);
    }
    var h := acc.RequestHashCodeWrite(HASH_CODE_POSTING_BYTE_SIZE);
    if h.Err? {
      return Err(h.error);
    }
    w := acc.WriteHashCode(h.value.0, h.value.1, NewHashCodePosting(hashCode, revision, keyAt));
    if w.Err? {
      return Err(w.error);
    }
    w := acc.WriteSlot(bucket.tableId, bucket.offset, Hashtable.Posting(FileHandler.FLAG_IN_USE, revision, h.value.0, h.value.1, -1));
    if w.Err? {
      return Err(w.error);
    }
    r := Ok(None);
  }

  /** doPut of a hash code new to a bucket in use, linked after `last`. */
  method AddHashCode(acc: Accessor, hashCode: int, revision: int, nk: KeyPosting, keyAt: (int, int), last: HashCursor)
    returns (r: Result<Option<seq<byte>>>)
    requires acc.Valid()
    modifies acc
    ensures acc.Valid()
    ensures Step(r, acc.disk) == AppendHashCode(old(acc.disk), acc.config, hashCode, revision, nk, keyAt, last)
  {
    var w := acc.WriteKey(keyAt.0, keyAt.1, nk);
    if w.Err? {
      return Err(w.error);
    }
    var h := acc.RequestHashCodeWrite(HASH_CODE_POSTING_BYTE_SIZE);
    if h.Err? {
      return Err(h.error);
    }
    w := acc.WriteHashCode(h.value.0, h.value.1, NewHashCodePosting(hashCode, revision, keyAt));
    if w.Err? {
      return Err(w.error);
    }
    w := acc.WriteHashCode(last.partition, last.offset, last.posting.(nextPartition := h.value.0, nextOffset := h.value.1));
    if w.Err? {
      return Err(w.error);
    }
    r := Ok(None);
  }

  /** doPut of a key new to its hash code, linked after `last`. */
  method AddKey(acc: Accessor, nk: KeyPosting, keyAt: (int, int), last: KeyCursor) returns (r: Result<Option<seq<byte>>>)
    requires acc.Valid()
    modifies acc
    ensures acc.Valid()
    ensures Step(r, acc.disk) == AppendKey(old(acc.disk), acc.config, nk, keyAt, last)
  {
    var w := acc.WriteKey(last.partition, last.offset, last.posting.(nextPartition := keyAt.0, nextOffset := keyAt.1));
    if w.Err? {
      return Err(w.error);
    }
    w := acc.WriteKey(keyAt.0, keyAt.1, nk);
    if w.Err? {
      return Err(w.error);
    }
    r := Ok(None);
  }

  /** doPut of a key in use, without a previous key posting. */
  method ReplaceFirstKey(acc: Accessor, revision: int, nk: KeyPosting, keyAt: (int, int), hc: HashCursor, cur: KeyCursor, bucket: Bucket)
    returns (r: Result<()>)
    requires acc.Valid()
    modifies acc
    ensures acc.Valid()
    ensures Step(r, acc.disk) == Replaced(old(acc.disk), acc.config, revision, nk, keyAt, hc, cur, None, bucket)
  {
    var nk1 := if acc.config.usingDurablePostingLinks then nk.(nextPartition := cur.partition, nextOffset := cur.offset) else nk;
    r := acc.WriteKey(keyAt.0, keyAt.1, nk1);
    if r.Err? {
      return;
    }
    r := acc.WriteKey(cur.partition, cur.offset, MarkedKey(cur.posting, revision));
    if r.Err? {
      return;
    }
    if hc.posting.firstKeyPartition == cur.partition && hc.posting.firstKeyOffset == cur.offset {
      r := acc.WriteHashCode(hc.partition, hc.offset, hc.posting.(firstKeyPartition := keyAt.0, firstKeyOffset := keyAt.1));
    }
  }

  /** doPut of a key in use after key posting `prev`. */
  method ReplaceLaterKey(acc: Accessor, revision: int, nk: KeyPosting, keyAt: (int, int), hc: HashCursor, cur: KeyCursor, prev: KeyCursor, bucket: Bucket)
    returns (r: Result<()>)
    requires acc.Valid()
    modifies acc
    ensures acc.Valid()
    ensures Step(r, acc.disk) == Replaced(old(acc.disk), acc.config, revision, nk, keyAt, hc, cur, Some(prev), bucket)
  {
    var firstIsNew := hc.posting.(firstKeyPartition := keyAt.0, firstKeyOffset := keyAt.1);
    var headIsPrevious := prev.posting.flag == FileHandler.FLAG_DELETED
      && hc.posting.firstKeyPartition == prev.partition && hc.posting.firstKeyOffset == prev.offset;
    if acc.config.usingDurablePostingLinks {
      if headIsPrevious {
        r := acc.WriteKey(keyAt.0, keyAt.1, nk.(nextPartition := prev.partition, nextOffset := prev.offset));
        if r.Err? {
          return;
        }
        r := acc.MarkKey(cur.partition, hc.offset, revision);
        if r.Err? {
          return;
        }
        r := acc.WriteHashCode(hc.partition, bucket.offset, firstIsNew);
      } else {
        r := acc.WriteKey(keyAt.0, keyAt.1, nk.(nextPartition := cur.partition, nextOffset := hc.offset));
        if r.Err? {
          return;
        }
        r := acc.WriteKey(cur.partition, cur.offset, MarkedKey(cur.posting, revision));
        if r.Err? {
          return;
        }
        r := acc.WriteKey(prev.partition, prev.offset, prev.posting.(nextPartition := keyAt.0, nextOffset := keyAt.1));
      }
    } else {
      if headIsPrevious {
        r := acc.WriteKey(keyAt.0, keyAt.1, nk.(nextPartition := prev.partition, nextOffset := prev.offset));
        if r.Err? {
          return;
        }
        r := acc.WriteHashCode(hc.partition, hc.offset, firstIsNew);
        if r.Err? {
          return;
        }
        r := acc.MarkKey(cur.partition, cur.offset, revision);
        if r.Err? {
          return;
        }
        r := acc.WriteKey(prev.partition, prev.offset, prev.posting.(nextOffset := -1));
      } else {
        r := acc.WriteKey(keyAt.0, keyAt.1, nk.(nextPartition := cur.posting.nextPartition, nextOffset := cur.posting.nextOffset));
        if r.Err? {
          return;
        }
        r := acc.WriteKey(prev.partition, prev.offset, prev.posting.(nextPartition := keyAt.0, nextOffset := keyAt.1));
        if r.Err? {
          return;
        }
        r := acc.MarkKey(cur.partition, cur.offset, revision);
      }
    }
  }

  /** The replaced value read, marked deleted, and returned. */
  method ReleaseValue(acc: Accessor, k: KeyPosting, revision: int) returns (r: Result<Option<seq<byte>>>)
    requires acc.Valid()
    modifies acc
    ensures acc.Valid()
    ensures Step(r, acc.disk) == ReplacedValue(old(acc.disk), acc.config, k, revision)
  {
    var v := ReadValue(acc, k);
    if v.Err? {
      return Err(v.error);
    }
    // The offset was just read, so marking it cannot fail.
    var _ := acc.MarkValue(k.valuePartition, k.valueOffset, revision);
    r := Ok(OldPayload(v.value));
  }

  /** doPut into a bucket in use. */
  method PutInBucket(acc: Accessor, key: seq<byte>, hashCode: int, revision: int, nk: KeyPosting, keyAt: (int, int), bucket: Bucket, ghost fuel: nat)
    returns (r: Result<Option<seq<byte>>>)
    requires acc.Valid()
    requires PutIntoBucket(acc.disk, acc.config, key, hashCode, revision, nk, keyAt, bucket, fuel).result != Err(Diverges)
    modifies acc
    ensures acc.Valid()
    ensures Step(r, acc.disk) == PutIntoBucket(old(acc.disk), acc.config, key, hashCode, revision, nk, keyAt, bucket, fuel)
  {
    var first := ReadFirstHashCode(acc, bucket.posting);
    if first.Err? {
      return Err(first.error);
    }
    var hw := SeekHashCode(acc, VisibleWithHash, hashCode, revision, first.value, fuel);
    if hw.Err? {
      return Err(hw.error);
    }
    if !hw.value.found {
      r := AddHashCode(acc, hashCode, revision, nk, keyAt, hw.value.at);
      return;
    }
    var k := ReadFirstKey(acc, hw.value.at.posting);
    if k.Err? {
      return Err(k.error);
    }
    var kw := SeekKey(acc, KeyVisible, key, revision, k.value, fuel);
    if kw.Err? {
      return Err(kw.error);
    }
    var stop := kw.value;
    if !stop.found {
      r := AddKey(acc, nk, keyAt, stop.at);
      return;
    }
    var w;
    if stop.previous.None? {
      w := ReplaceFirstKey(acc, revision, nk, keyAt, hw.value.at, stop.at, bucket);
    } else {
      w := ReplaceLaterKey(acc, revision, nk, keyAt, hw.value.at, stop.at, stop.previous.value, bucket);
    }
    if w.Err? {
      return Err(w.error);
    }
    r := ReleaseValue(acc, stop.at.posting, revision);
  }

  // ---------------------------------------------------------------------
  // The phases of doRemove

  /** The durable part of unlinking `cur`. */
  method UnlinkDurably(acc: Accessor, hc: HashCursor, cur: KeyCursor, ghost fuel: nat) returns (r: Result<KeyPosting>)
    requires acc.Valid()
    requires DurablyUnlinked(acc.disk, acc.config, hc, cur, fuel).result != Err(Diverges)
    modifies acc
    ensures acc.Valid()
    ensures Step(r, acc.disk) == DurablyUnlinked(old(acc.disk), acc.config, hc, cur, fuel)
  {
    var last := SeekLastKey(acc, cur.partition, cur.offset, fuel);
    if last.Err? {
      return Err(last.error);
    }
    var l := last.value;
    // The last posting was just read, so writing it back cannot fail.
    var _ := acc.WriteKey(l.partition, l.offset, l.posting.(nextPartition := cur.partition, nextOffset := hc.offset));
    var ck := cur.posting.(nextPartition := -1, nextOffset := -1);
    var w := acc.WriteKey(cur.partition, hc.offset, ck);
    if w.Err? {
      return Err(w.error);
    }
    r := Ok(ck);
  }

  /** doRemove's relinking around `cur`. */
  method Unlink(acc: Accessor, revision: int, bucket: Bucket, hc: HashCursor, cur: KeyCursor, previous: Option<KeyCursor>, ghost fuel: nat)
    returns (r: Result<()>)
    requires acc.Valid()
    requires Unlinked(acc.disk, acc.config, revision, bucket, hc, cur, previous, fuel).result != Err(Diverges)
    modifies acc
    ensures acc.Valid()
    ensures Step(r, acc.disk) == Unlinked(old(acc.disk), acc.config, revision, bucket, hc, cur, previous, fuel)
  {
    var slot := bucket.posting;
    if hc.posting.firstKeyPartition == cur.partition && hc.posting.firstKeyOffset == cur.offset {
      r := Ok(());
      if slot.hashCodePostingPartition == hc.partition && slot.hashCodePostingPartitionOffset == hc.offset {
        r := acc.MarkHashCode(hc.partition, hc.offset, revision);
        if r.Err? {
          return;
        }
        r := acc.MarkSlot(bucket.tableId, bucket.offset, revision);
      }
      return;
    }
    var ck := cur.posting;
    if acc.config.usingDurablePostingLinks {
      var u := UnlinkDurably(acc, hc, cur, fuel);
      if u.Err? {
        return Err(u.error);
      }
      ck := u.value;
    }
    r := Ok(());
    if previous.Some? {
      var p := previous.value;
      r := acc.WriteKey(p.partition, p.offset, p.posting.(nextPartition := ck.nextPartition, nextOffset := ck.nextOffset));
    }
  }

  // ---------------------------------------------------------------------
  // The private rehash of one hash-code posting

  method RehashPosting(acc: Accessor, newId: int, target: int, at: int, p: HashCodePosting, ghost fuel: nat) returns (r: Result<()>)
    requires acc.Valid() && newId in acc.disk.tables
    requires RehashOne(acc.disk, acc.config, newId, target, at, p, fuel).result != Err(Diverges)
    modifies acc
    ensures acc.Valid() && newId in acc.disk.tables
    ensures Step(r, acc.disk) == RehashOne(old(acc.disk), acc.config, newId, target, at, p, fuel)
  {
    var so := Hashtable.SlotOffset(p.keyHashCode, acc.disk.tables[newId].capacity);
    var slot := SlotAt(acc.disk.tables[newId], so);
    if slot.Err? {
      return Err(slot.error);
    }
    if slot.value.flag != FileHandler.FLAG_IN_USE {
      var copy := HashCodePosting(FileHandler.FLAG_IN_USE, p.createdRevision, p.deletedRevision, p.keyHashCode, -1, -1, p.firstKeyPartition, p.firstKeyOffset);
      r := acc.WriteHashCode(target, at, copy);
      if r.Err? {
        return;
      }
      r := acc.WriteSlot(newId, so, slot.value.(flag := FileHandler.FLAG_IN_USE, hashCodePostingPartition := target, hashCodePostingPartitionOffset := at));
      return;
    }
    var first := HashCodeAt(acc.disk, target, slot.value.hashCodePostingPartitionOffset);
    if first.Err? {
      return Err(first.error);
    }
    var hw := SeekHashCode(acc, HashOnly, p.keyHashCode, 0, HashCursor(target, slot.value.hashCodePostingPartitionOffset, first.value), fuel);
    if hw.Err? {
      return Err(hw.error);
    }
    if hw.value.found {
      return Ok(());
    }
    var appended := HashCodePosting(FileHandler.FLAG_IN_USE, 0, -1, p.keyHashCode, -1, -1, p.firstKeyPartition, p.firstKeyOffset);
    r := acc.WriteHashCode(target, at, appended);
    if r.Err? {
      return;
    }
    var last := hw.value.at;
    r := acc.WriteHashCode(last.partition, last.offset, last.posting.(nextPartition := target, nextOffset := at));
  }

  /**
   * rehash's loop over the old hash-code partitions 0 to `top`, rehashing
   * into partition `top` + 1 from offset `at`; a partition whose file does
   * not exist is skipped.
   */
  method RehashOldPartitions(acc: Accessor, newId: int, top: int, at: int, ghost fuel: nat) returns (r: Result<int>)
    requires acc.Valid() && newId in acc.disk.tables
    requires RehashPartitions(acc.disk, acc.config, newId, top + 1, 0, top, at, fuel).result != Err(Diverges)
    modifies acc
    ensures acc.Valid() && acc.disk.md == old(acc.disk.md)
    ensures Step(r, acc.disk) == RehashPartitions(old(acc.disk), acc.config, newId, top + 1, 0, top, at, fuel)
  {
    var pid, next := 0, at;
    while pid <= top
      invariant acc.Valid() && newId in acc.disk.tables && acc.disk.md == old(acc.disk.md)
      invariant RehashPartitions(acc.disk, acc.config, newId, top + 1, pid, top, next, fuel)
        == RehashPartitions(old(acc.disk), acc.config, newId, top + 1, 0, top, at, fuel)
      invariant RehashPartitions(acc.disk, acc.config, newId, top + 1, pid, top, next, fuel).result != Err(Diverges)
      decreases top - pid + 1
    {
      if pid in acc.disk.hashCodes {
        var w := RehashPartition(acc, newId, top + 1, pid, acc.disk.hashCodes[pid].header.nextPostingOffset, next, fuel);
        if w.Err? {
          return Err(w.error);
        }
        next := w.value;
      }
      pid := pid + 1;
    }
    r := Ok(next);
  }

  /** rehash's loop over the postings of old partition `pid`, up to `end`. */
  method RehashPartition(acc: Accessor, newId: int, target: int, pid: int, end: int, at: int, ghost fuel: nat) returns (r: Result<int>)
    requires acc.Valid() && newId in acc.disk.tables
    requires RehashPostings(acc.disk, acc.config, newId, target, pid, HEADER_BYTE_SIZE, end, at, fuel).result != Err(Diverges)
    modifies acc
    ensures acc.Valid() && newId in acc.disk.tables
    ensures Step(r, acc.disk) == RehashPostings(old(acc.disk), acc.config, newId, target, pid, HEADER_BYTE_SIZE, end, at, fuel)
  {
    var off, next := HEADER_BYTE_SIZE, at;
    while off < end
      invariant acc.Valid() && newId in acc.disk.tables && off >= HEADER_BYTE_SIZE
      invariant RehashPostings(acc.disk, acc.config, newId, target, pid, off, end, next, fuel)
        == RehashPostings(old(acc.disk), acc.config, newId, target, pid, HEADER_BYTE_SIZE, end, at, fuel)
      invariant RehashPostings(acc.disk, acc.config, newId, target, pid, off, end, next, fuel).result != Err(Diverges)
      decreases end - off
    {
      ghost var d0, off0 := acc.disk, off;
      var p := HashCodeAt(acc.disk, pid, off).value;
      off := NextHashCodeOffset(off);
      if p.flag == FileHandler.FLAG_DELETED {
        RehashPostingsSkips(d0, acc.config, newId, target, pid, off0, end, next, fuel);
        continue;
      } else if p.flag == FileHandler.FLAG_NEVER_USED {
        break;
      }
      var w := RehashPosting(acc, newId, target, next, p, fuel);
      RehashPostingsMoves(d0, Step(w, acc.disk), acc.config, newId, target, pid, off0, end, next, p, fuel);
      if w.Err? {
        return Err(w.error);
      }
      next := NextHashCodeOffset(next);
    }
    r := Ok(next);
  }

  /** The cursor keys() returns: the position of the next key posting to read. */
  class KeysCursor {
    var nextPartition: int
    var nextOffset: int

    constructor ()
      ensures nextPartition == 0 && nextOffset == HEADER_BYTE_SIZE
    {
      nextPartition, nextOffset := 0, HEADER_BYTE_SIZE;
    }

    function Position(): CursorPosition
      reads this
    {
      CursorPosition(nextPartition, nextOffset)
    }

    /**
     * next(accessor, revision): the next key posting visible at the
     * revision, or null at the end; key partitions are asked for without
     * creating them, so the files do not change.
     */
    method Next(acc: Accessor, revision: int) returns (r: Option<KeyPosting>)
      requires acc.Valid() && nextOffset >= 0
      modifies this, acc
      ensures acc.Valid() && acc.disk == old(acc.disk)
      ensures (r, Position()) == CursorNext(old(acc.disk.keys), old(Position()), revision)
    {
      while true
        invariant acc.Valid() && acc.disk == old(acc.disk) && nextOffset >= 0
        invariant CursorNext(acc.disk.keys, Position(), revision) == CursorNext(old(acc.disk.keys), old(Position()), revision)
        decreases CursorRemaining(acc.disk.keys, Position()).0, CursorRemaining(acc.disk.keys, Position()).1
      {
        var found := acc.GetKeysPartition(nextPartition, false);
        if !found {
          return None;
        }
        var postings := acc.disk.keys[nextPartition].postings;
        var posting := KeyAt(acc.disk, nextPartition, nextOffset).value;
        var at := nextOffset;
        nextOffset := nextOffset + KeyPostingByteSize(posting);
        if posting.flag == FileHandler.FLAG_NEVER_USED {
          ProperSubsetSmaller((set q | q in acc.disk.keys && q >= nextPartition + 1),
            (set q | q in acc.disk.keys && q >= nextPartition), nextPartition);
          nextPartition := nextPartition + 1;
          nextOffset := HEADER_BYTE_SIZE;
        } else if VisibleToCursor(posting, revision) {
          return Some(posting);
        } else {
          ProperSubsetSmaller((set o | o in postings && o >= nextOffset), (set o | o in postings && o >= at), at);
        }
      }
    }
  }
}
