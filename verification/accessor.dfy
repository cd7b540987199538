/**
 * The accessor: one client's handles on the store's files. It opens (and
 * creates) partitions lazily and remembers which ones it has opened, reloads
 * the hashtable generation when the metadata names a new one, reserves
 * append space in the current partition of each kind, and increases the
 * store revision. The files themselves are the `Disk` value it holds.
 */
module StoreAccessor {
  import opened Wrappers
  import opened JavaInt
  import opened Postings
  import opened StoreFiles
  import ValuesPartition
  import Metadata

  /** An open hashtable generation: its version id and the capacity its header held when it was opened. */
  datatype HashtableHandle = HashtableHandle(versionId: int, capacity: int)

  /**
   * The files a new store starts with: a metadata header with every field
   * zero, hashtable generation 0 with the initial capacity and no bucket
   * postings, and hash-code and value partition 0 formatted. Key partition 0
   * is not created: the bootstrap asks for it with createNew false.
   */
  function Bootstrapped(c: Config): Disk
  {
    Disk(Metadata.HeaderValue(0, 0, 0, 0, 0, 0, 0),
      map[0 := Table(c.initialCapacity, map[])],
      map[0 := Formatted(c.hashCodesPartitionByteSize)],
      map[],
      map[0 := Formatted(c.valuesPartitionByteSize)])
  }

  /** A partition whose next free offset and bytes left add up to the partition size, with its header area never handed out. */
  predicate Balanced<P>(part: Partition<P>, size: int)
  {
    part.header.nextPostingOffset + part.header.bytesLeft == size
    && part.header.nextPostingOffset >= HEADER_BYTE_SIZE && part.header.bytesLeft >= 0
  }

  predicate AllBalanced<P>(m: map<int, Partition<P>>, size: int)
  {
    forall q :: q in m ==> Balanced(m[q], size)
  }

  class Accessor {
    const config: Config
    var disk: Disk
    var hashtable: Option<HashtableHandle>
    /** The partitions this accessor has opened, by id: the three HashMaps. */
    var hashCodesPartitions: set<int>
    var keyPartitions: set<int>
    var valuePartitions: set<int>

    /**
     * Every opened partition exists, and an open hashtable generation exists
     * with the capacity the handle holds and is no newer than the one the
     * metadata names.
     */
    ghost predicate Valid()
      reads this
    {
      hashCodesPartitions <= disk.hashCodes.Keys
      && keyPartitions <= disk.keys.Keys
      && valuePartitions <= disk.values.Keys
      && (hashtable.Some? ==>
            hashtable.value.versionId in disk.tables
            && disk.tables[hashtable.value.versionId].capacity == hashtable.value.capacity
            && hashtable.value.versionId <= disk.md.currentHashtableId)
    }

    /**
     * Accessor(store): an existing store (`existing` holds its files) is only
     * opened; otherwise the metadata, hashtable generation 0 and the first
     * partitions are created, and the new hashtable stays open.
     */
    constructor (config: Config, existing: Option<Disk>)
      ensures Valid() && this.config == config
      ensures existing.Some? ==>
        disk == existing.value && hashtable == None
        && hashCodesPartitions == {} && keyPartitions == {} && valuePartitions == {}
      ensures existing.None? ==>
        disk == Bootstrapped(config)
        && hashtable == Some(HashtableHandle(0, config.initialCapacity))
        && hashCodesPartitions == {0} && keyPartitions == {} && valuePartitions == {0}
    {
      this.config := config;
      hashtable := None;
      hashCodesPartitions, keyPartitions, valuePartitions := {}, {}, {};
      if existing.Some? {
        disk := existing.value;
      } else {
        disk := Disk(Metadata.HeaderValue(0, 0, 0, 0, 0, 0, 0), map[0 := Table(config.initialCapacity, map[])], map[], map[], map[]);
        hashtable := Some(HashtableHandle(0, config.initialCapacity));
      }
      new;
      if existing.None? {
        GetHashCodesPartition(0);
        var _ := GetKeysPartition(0, false);
        GetValuesPartition(0);
      }
    }

    /** increaseStoreRevision: the stored revision plus one, as a Java long, written back and returned. */
    method IncreaseStoreRevision() returns (r: int)
      requires Valid()
      modifies this
      ensures Valid()
      ensures r == Wrap(old(disk.md.storeRevision) + 1, 8)
      ensures disk == old(disk).(md := old(disk.md).(storeRevision := r))
      ensures hashtable == old(hashtable)
    {
      var mdh := disk.md;
      mdh := mdh.(storeRevision := Wrap(mdh.storeRevision + 1, 8));
      disk := disk.(md := mdh);
      r := mdh.storeRevision;
    }

    /**
     * getHashtable: the generation the metadata names. The open one is kept
     * when its version id is that one; otherwise that generation is opened,
     * which fails when its file does not exist.
     */
    method GetHashtable() returns (r: Result<HashtableHandle>)
      requires Valid()
      modifies this
      ensures Valid() && disk == old(disk)
      ensures r == (var id := disk.md.currentHashtableId;
        if id in disk.tables then Ok(HashtableHandle(id, disk.tables[id].capacity)) else Err(NO_HASHTABLE))
      ensures old(hashtable).Some? && old(hashtable).value.versionId == disk.md.currentHashtableId ==> hashtable == old(hashtable)
      ensures r.Ok? ==> hashtable == Some(r.value)
      ensures r.Err? ==> hashtable == old(hashtable)
      ensures hashCodesPartitions == old(hashCodesPartitions) && keyPartitions == old(keyPartitions)
      ensures valuePartitions == old(valuePartitions)
    {
      var id := disk.md.currentHashtableId;
      if hashtable.None? || hashtable.value.versionId != id {
        if id !in disk.tables {
          return Err(NO_HASHTABLE);
        }
        hashtable := Some(HashtableHandle(id, disk.tables[id].capacity));
      }
      r := Ok(hashtable.value);
    }

    /** getHashCodesPartition: the partition opened once and remembered; one that does not exist is created. */
    method GetHashCodesPartition(pid: int)
      requires Valid()
      modifies this
      ensures Valid() && disk == HashCodesOpened(old(disk), config, pid)
      ensures hashCodesPartitions == old(hashCodesPartitions) + {pid}
      ensures hashtable == old(hashtable) && keyPartitions == old(keyPartitions) && valuePartitions == old(valuePartitions)
    {
      if pid !in hashCodesPartitions {
        if pid !in disk.hashCodes {
          disk := disk.(hashCodes := disk.hashCodes[pid := Formatted(config.hashCodesPartitionByteSize)]);
        }
        hashCodesPartitions := hashCodesPartitions + {pid};
      }
    }

    /**
     * getKeysPartition: like getHashCodesPartition, except that with
     * createNew false a partition that does not exist is neither created nor
     * remembered, and the answer is null (`exists` false).
     */
    method GetKeysPartition(pid: int, createNew: bool) returns (found: bool)
      requires Valid()
      modifies this
      ensures Valid()
      ensures found <==> pid in old(disk.keys) || createNew
      ensures disk == if found then KeysOpened(old(disk), config, pid) else old(disk)
      ensures keyPartitions == if found then old(keyPartitions) + {pid} else old(keyPartitions)
      ensures hashtable == old(hashtable) && hashCodesPartitions == old(hashCodesPartitions)
      ensures valuePartitions == old(valuePartitions)
    {
      found := true;
      if pid !in keyPartitions {
        if pid !in disk.keys && !createNew {
          return false;
        }
        if pid !in disk.keys {
          disk := disk.(keys := disk.keys[pid := Formatted(config.keysPartitionByteSize)]);
        }
        keyPartitions := keyPartitions + {pid};
      }
    }

    method GetValuesPartition(pid: int)
      requires Valid()
      modifies this
      ensures Valid() && disk == ValuesOpened(old(disk), config, pid)
      ensures valuePartitions == old(valuePartitions) + {pid}
      ensures hashtable == old(hashtable) && hashCodesPartitions == old(hashCodesPartitions)
      ensures keyPartitions == old(keyPartitions)
    {
      if pid !in valuePartitions {
        if pid !in disk.values {
          disk := disk.(values := disk.values[pid := Formatted(config.valuesPartitionByteSize)]);
        }
        valuePartitions := valuePartitions + {pid};
      }
    }

    /**
     * requestValueWrite for a hash-code posting of `requestedBytes` bytes:
     * the (partition, offset) it is to be written at.
     */
    method RequestHashCodeWrite(requestedBytes: int) returns (r: Result<(int, int)>)
      requires Valid()
      modifies this
      ensures Valid() && Step(r, disk) == HashCodeReserved(old(disk), config, requestedBytes)
      ensures hashtable == old(hashtable)
    {
      var mdh := disk.md;
      var pid := mdh.currentHashCodesPartition;
      GetHashCodesPartition(pid);
      var h := disk.hashCodes[pid].header;
      if h.bytesLeft < requestedBytes {
        var maxPostingByteSize := config.hashCodesPartitionByteSize - HEADER_BYTE_SIZE;
        if requestedBytes > maxPostingByteSize {
          return Err(TOO_LARGE);
        }
        pid := pid + 1;
        mdh := mdh.(currentHashCodesPartition := pid);
        disk := disk.(md := mdh);
        GetHashCodesPartition(pid);
        h := disk.hashCodes[pid].header;
      }
      r := Ok((pid, h.nextPostingOffset));
      disk := disk.(hashCodes := disk.hashCodes[pid := disk.hashCodes[pid].(header := Advanced(h, requestedBytes))]);
    }

    /** requestValueWrite for a key posting; key partitions are asked for with createNew true. */
    method RequestKeyWrite(requestedBytes: int) returns (r: Result<(int, int)>)
      requires Valid()
      modifies this
      ensures Valid() && Step(r, disk) == KeyReserved(old(disk), config, requestedBytes)
      ensures hashtable == old(hashtable)
    {
      var mdh := disk.md;
      var pid := mdh.currentKeysPartition;
      var _ := GetKeysPartition(pid, true);
      var h := disk.keys[pid].header;
      if h.bytesLeft < requestedBytes {
        var maxPostingByteSize := config.keysPartitionByteSize - HEADER_BYTE_SIZE;
        if requestedBytes > maxPostingByteSize {
          return Err(TOO_LARGE);
        }
        pid := pid + 1;
        mdh := mdh.(currentKeysPartition := pid);
        disk := disk.(md := mdh);
        var _ := GetKeysPartition(pid, true);
        h := disk.keys[pid].header;
      }
      r := Ok((pid, h.nextPostingOffset));
      disk := disk.(keys := disk.keys[pid := disk.keys[pid].(header := Advanced(h, requestedBytes))]);
    }

    /** requestValueWrite for a value posting. */
    method RequestValueWrite(requestedBytes: int) returns (r: Result<(int, int)>)
      requires Valid()
      modifies this
      ensures Valid() && Step(r, disk) == ValueReserved(old(disk), config, requestedBytes)
      ensures hashtable == old(hashtable)
    {
      var mdh := disk.md;
      var pid := mdh.currentValuesPartition;
      GetValuesPartition(pid);
      var h := disk.values[pid].header;
      if h.bytesLeft < requestedBytes {
        var maxPostingByteSize := config.valuesPartitionByteSize - HEADER_BYTE_SIZE;
        if requestedBytes > maxPostingByteSize {
          return Err(TOO_LARGE);
        }
        pid := pid + 1;
        mdh := mdh.(currentValuesPartition := pid);
        disk := disk.(md := mdh);
        GetValuesPartition(pid);
        h := disk.values[pid].header;
      }
      r := Ok((pid, h.nextPostingOffset));
      disk := disk.(values := disk.values[pid := disk.values[pid].(header := Advanced(h, requestedBytes))]);
    }

    // -------------------------------------------------------------------
    // Postings, through the partitions this accessor has open

    /** writePosting of a hash-code posting in partition `pid` at `off`. */
    method WriteHashCode(pid: int, off: int, p: HashCodePosting) returns (r: Result<()>)
      requires Valid()
      modifies this
      ensures Valid() && Step(r, disk) == HashCodeWritten(old(disk), config, pid, off, p)
      ensures hashtable == old(hashtable)
    {
      var w := HashCodeWritten(disk, config, pid, off, p);
      disk, r := w.disk, w.result;
    }

    method WriteKey(pid: int, off: int, p: KeyPosting) returns (r: Result<()>)
      requires Valid()
      modifies this
      ensures Valid() && Step(r, disk) == KeyWritten(old(disk), config, pid, off, p)
      ensures hashtable == old(hashtable)
    {
      var w := KeyWritten(disk, config, pid, off, p);
      disk, r := w.disk, w.result;
    }

    method WriteValue(pid: int, off: int, p: ValuesPartition.Posting) returns (r: Result<()>)
      requires Valid()
      modifies this
      ensures Valid() && Step(r, disk) == ValueWritten(old(disk), config, pid, off, p)
      ensures hashtable == old(hashtable)
    {
      var w := ValueWritten(disk, config, pid, off, p);
      disk, r := w.disk, w.result;
    }

    /** writePosting of a bucket posting into hashtable generation `id`. */
    method WriteSlot(id: int, off: int, p: Hashtable.Posting) returns (r: Result<()>)
      requires Valid()
      modifies this
      ensures Valid() && Step(r, disk) == SlotWritten(old(disk), id, off, p)
      ensures hashtable == old(hashtable)
    {
      var w := SlotWritten(disk, id, off, p);
      disk, r := w.disk, w.result;
    }

    /** markPostingAsDeleted on a hash-code, key, value or bucket posting. */
    method MarkHashCode(pid: int, off: int, revision: int) returns (r: Result<()>)
      requires Valid()
      modifies this
      ensures Valid() && Step(r, disk) == HashCodeMarked(old(disk), config, pid, off, revision)
      ensures hashtable == old(hashtable)
    {
      var w := HashCodeMarked(disk, config, pid, off, revision);
      disk, r := w.disk, w.result;
    }

    method MarkKey(pid: int, off: int, revision: int) returns (r: Result<()>)
      requires Valid()
      modifies this
      ensures Valid() && Step(r, disk) == KeyMarked(old(disk), config, pid, off, revision)
      ensures hashtable == old(hashtable)
    {
      var w := KeyMarked(disk, config, pid, off, revision);
      disk, r := w.disk, w.result;
    }

    method MarkValue(pid: int, off: int, revision: int) returns (r: Result<()>)
      requires Valid()
      modifies this
      ensures Valid() && Step(r, disk) == ValueMarked(old(disk), config, pid, off, revision)
      ensures hashtable == old(hashtable)
    {
      var w := ValueMarked(disk, config, pid, off, revision);
      disk, r := w.disk, w.result;
    }

    method MarkSlot(id: int, off: int, revision: int) returns (r: Result<()>)
      requires Valid()
      modifies this
      ensures Valid() && Step(r, disk) == SlotMarked(old(disk), id, off, revision)
      ensures hashtable == old(hashtable)
    {
      var w := SlotMarked(disk, id, off, revision);
      disk, r := w.disk, w.result;
    }
  }

  // ---------------------------------------------------------------------
  // What a reservation promises

  /** Opening a partition twice is opening it once, and opening never changes a partition that exists. */
  lemma OpenedIdempotent<P>(m: map<int, Partition<P>>, pid: int, size: int)
    ensures Opened(Opened(m, pid, size), pid, size) == Opened(m, pid, size)
    ensures pid in m ==> Opened(m, pid, size) == m
  {
  }

  /** A partition is created balanced: its next free offset and bytes left add up to its size. */
  lemma FormattedBalanced<P>(size: int)
    requires size >= HEADER_BYTE_SIZE
    ensures Balanced(Formatted<P>(size), size)
  {
  }

  /**
   * While the current partition is the last one, every reservation keeps
   * each partition balanced, and the bytes it hands out lie after the header
   * and inside the partition.
   */
  lemma ReserveKeepsBalance<P>(m: map<int, Partition<P>>, current: int, size: int, requested: int)
    requires size >= HEADER_BYTE_SIZE && requested >= 0 && AllBalanced(m, size)
    requires current + 1 !in m
    ensures var r := Reserve(m, current, size, requested);
      AllBalanced(r.partitions, size)
      && (r.offset.Ok? ==> HEADER_BYTE_SIZE <= r.offset.value && r.offset.value + requested <= size)
  {
    var m1 := Opened(m, current, size);
    assert AllBalanced(m1, size);
    var h := m1[current].header;
    if h.bytesLeft < requested {
      if requested <= size - HEADER_BYTE_SIZE {
        var m2 := Opened(m1, current + 1, size);
        assert AllBalanced(m2, size);
        assert Balanced(m2[current + 1], size);
      }
    } else {
      assert Balanced(m1[current], size);
    }
  }

  /**
   * The offset a reservation hands out is the header's next free offset,
   * and afterwards that offset has moved on by exactly the requested bytes
   * while the bytes left dropped by as much.
   */
  lemma ReserveAdvances<P>(m: map<int, Partition<P>>, current: int, size: int, requested: int)
    ensures var r := Reserve(m, current, size, requested);
      r.offset.Ok? ==>
        var before := Opened(Opened(m, current, size), r.current, size)[r.current].header;
        r.offset.value == before.nextPostingOffset
        && r.partitions[r.current].header.nextPostingOffset == before.nextPostingOffset + requested
        && r.partitions[r.current].header.bytesLeft == before.bytesLeft - requested
  {
  }

  /**
   * A posting that does not fit the bytes left but fits an empty partition
   * moves the current partition on by exactly one and is reserved there.
   */
  lemma ReserveRollsOver<P>(m: map<int, Partition<P>>, current: int, size: int, requested: int)
    requires var h := Opened(m, current, size)[current].header; h.bytesLeft < requested <= size - HEADER_BYTE_SIZE
    ensures var r := Reserve(m, current, size, requested);
      r.current == current + 1 && r.offset.Ok?
      && r.offset.value == Opened(Opened(m, current, size), current + 1, size)[current + 1].header.nextPostingOffset
  {
  }

  /**
   * A posting larger than an empty partition can hold is refused, and the
   * metadata is left as it was.
   */
  lemma TooLargeRefused(d: Disk, c: Config, requested: int)
    requires AllBalanced(d.values, c.valuesPartitionByteSize)
    requires requested > c.valuesPartitionByteSize - HEADER_BYTE_SIZE
    ensures ValueReserved(d, c, requested).result == Err(TOO_LARGE)
    ensures ValueReserved(d, c, requested).disk.md == d.md
  {
    var h := Opened(d.values, d.md.currentValuesPartition, c.valuesPartitionByteSize)[d.md.currentValuesPartition].header;
    // A balanced partition has at most its size less the header left.
    assert h.bytesLeft <= c.valuesPartitionByteSize - HEADER_BYTE_SIZE;
  }

  /**
   * Two reservations one after the other in the same partition are disjoint
   * and ascending: the second starts where the first ends.
   */
  lemma SuccessiveReservationsDisjoint<P>(m: map<int, Partition<P>>, current: int, size: int, a: int, b: int)
    requires Reserve(m, current, size, a).offset.Ok?
    requires var r1 := Reserve(m, current, size, a);
      Reserve(r1.partitions, r1.current, size, b).offset.Ok?
    requires var r1 := Reserve(m, current, size, a);
      Reserve(r1.partitions, r1.current, size, b).current == r1.current
    ensures var r1 := Reserve(m, current, size, a);
      var r2 := Reserve(r1.partitions, r1.current, size, b);
      r2.offset.value == r1.offset.value + a
  {
    var r1 := Reserve(m, current, size, a);
    assert r1.current in r1.partitions;
    assert Opened(r1.partitions, r1.current, size) == r1.partitions;
  }
}
