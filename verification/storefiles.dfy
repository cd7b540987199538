/**
 * The store's files as records: the metadata header, the hashtable
 * generations, and the hash-code, key and value partitions, each a header
 * and a map from byte offset to the posting written there. A file exists
 * when its id is a key of its map.
 */
module StoreFiles {
  import opened Wrappers
  import opened Postings
  import Hashtable
  import ValuesPartition
  import Metadata

  /** Every partition kind reserves the first 1024 bytes of its file for its header. */
  const HEADER_BYTE_SIZE: int := 1024

  /** The settings of store/Configuration that the core reads. */
  datatype Config = Config(
    usingDurablePostingLinks: bool,
    hashCodesPartitionByteSize: int,
    keysPartitionByteSize: int,
    valuesPartitionByteSize: int,
    initialCapacity: int)

  /** The exception requestValueWrite throws for a posting larger than an empty partition can hold. */
  const TOO_LARGE: Error := IOError("posting is too large to fit the maximum partition size")

  /** Opening a hashtable generation whose file does not exist fails. */
  const NO_HASHTABLE: Error := IOError("no hashtable file for the current hashtable id")

  datatype Partition<P> = Partition(header: ValuesPartition.Header, postings: map<int, P>)

  /** A hashtable generation: the capacity in its header and its bucket postings by offset. */
  datatype Table = Table(capacity: int, slots: map<int, Hashtable.Posting>)

  datatype Disk = Disk(
    md: Metadata.HeaderValue,
    tables: map<int, Table>,
    hashCodes: map<int, Partition<HashCodePosting>>,
    keys: map<int, Partition<KeyPosting>>,
    values: map<int, Partition<ValuesPartition.Posting>>)

  /**
   * What an operation returns together with the files it leaves behind; an
   * exception leaves behind whatever was written before it was thrown.
   */
  datatype Step<T> = Step(result: Result<T>, disk: Disk) {
    predicate IsFailure() {
      result.Err?
    }

    function PropagateFailure<U>(): Step<U>
      requires result.Err?
    {
      Step(Err(result.error), disk)
    }

    function Extract(): (T, Disk)
      requires result.Ok?
    {
      (result.value, disk)
    }
  }

  // ---------------------------------------------------------------------
  // One partition kind

  /** A partition as get*Partition creates it: formatted to `size` bytes, header (1024, size - 1024), no postings. */
  function Formatted<P>(size: int): Partition<P>
  {
    Partition(ValuesPartition.Header(HEADER_BYTE_SIZE, size - HEADER_BYTE_SIZE), map[])
  }

  /** The partitions once partition `pid` is opened, created first if it does not exist. */
  function Opened<P>(m: map<int, Partition<P>>, pid: int, size: int): (r: map<int, Partition<P>>)
    ensures r.Keys == m.Keys + {pid}
    ensures forall q :: q in m ==> r[q] == m[q]
    ensures pid !in m ==> r[pid] == Formatted(size)
  {
    if pid in m then m else m[pid := Formatted(size)]
  }

  /** readPosting at `off`: a negative offset fails the seek; bytes never written read as the zero record. */
  function PostingAt<P>(m: map<int, Partition<P>>, pid: int, off: int, zero: P): (r: Result<P>)
    ensures r.Err? <==> off < 0
  {
    if off < 0 then Err(IOError("negative seek offset"))
    else if pid in m && off in m[pid].postings then Ok(m[pid].postings[off])
    else Ok(zero)
  }

  /** writePosting at `off` in partition `pid`, which the caller has opened. */
  function WithPosting<P>(m: map<int, Partition<P>>, pid: int, off: int, p: P, size: int): (r: Result<map<int, Partition<P>>>)
    ensures r.Err? <==> off < 0
  {
    if off < 0 then Err(IOError("negative seek offset"))
    else
      var part := Opened(m, pid, size)[pid];
      Ok(m[pid := part.(postings := part.postings[off := p])])
  }

  /** After writing p at (pid, off), that place reads p and every other place reads as before. */
  lemma ReadAfterWrite<P>(m: map<int, Partition<P>>, pid: int, off: int, p: P, size: int, q: int, o: int, zero: P)
    requires off >= 0
    ensures WithPosting(m, pid, off, p, size).Ok?
    ensures PostingAt(WithPosting(m, pid, off, p, size).value, q, o, zero)
      == if q == pid && o == off then Ok(p) else PostingAt(m, q, o, zero)
  {
  }

  /** The next free offset and the bytes left after a reservation of `requested` bytes. */
  function Advanced(h: ValuesPartition.Header, requested: int): ValuesPartition.Header
  {
    ValuesPartition.Header(h.nextPostingOffset + requested, h.bytesLeft - requested)
  }

  /** What a reservation hands back: the offset, the partitions with the updated header, the current partition id. */
  datatype Reservation<P> = Reservation(offset: Result<int>, partitions: map<int, Partition<P>>, current: int)

  /**
   * requestValueWrite for one partition kind, from current partition
   * `current`: a posting that does not fit the bytes left moves to partition
   * current + 1, unless it could not fit even an empty partition; the
   * reservation starts at the header's next free offset, which then advances
   * by the requested size while the bytes left drop by as much.
   */
  function Reserve<P>(m: map<int, Partition<P>>, current: int, size: int, requested: int): (r: Reservation<P>)
    ensures r.current == current || r.current == current + 1
    ensures r.offset.Err? ==> r.current == current && r.partitions == Opened(m, current, size)
    ensures r.offset.Ok? ==>
      var before := Opened(Opened(m, current, size), r.current, size);
      r.offset.value == before[r.current].header.nextPostingOffset
      && r.partitions == before[r.current := before[r.current].(header := Advanced(before[r.current].header, requested))]
  {
    var m1 := Opened(m, current, size);
    var h := m1[current].header;
    if h.bytesLeft < requested then
      if requested > size - HEADER_BYTE_SIZE then
        Reservation(Err(TOO_LARGE), m1, current)
      else
        var m2 := Opened(m1, current + 1, size);
        var h2 := m2[current + 1].header;
        Reservation(Ok(h2.nextPostingOffset), m2[current + 1 := m2[current + 1].(header := Advanced(h2, requested))], current + 1)
    else
      Reservation(Ok(h.nextPostingOffset), m1[current := m1[current].(header := Advanced(h, requested))], current)
  }

  // ---------------------------------------------------------------------
  // The files of a store

  /** The hashtable generation the metadata names; opening one whose file is missing fails. */
  function CurrentTable(d: Disk): Result<Table>
  {
    if d.md.currentHashtableId in d.tables then Ok(d.tables[d.md.currentHashtableId])
    else Err(NO_HASHTABLE)
  }

  function SlotAt(t: Table, off: int): Result<Hashtable.Posting>
  {
    if off < 0 then Err(IOError("negative seek offset"))
    else if off in t.slots then Ok(t.slots[off])
    else Ok(ZERO_SLOT)
  }

  /** writePosting of a bucket posting into hashtable generation `id`. */
  function SlotWritten(d: Disk, id: int, off: int, p: Hashtable.Posting): Step<()>
  {
    if off < 0 then Step(Err(IOError("negative seek offset")), d)
    else if id !in d.tables then Step(Err(IOError("no hashtable file")), d)
    else Step(Ok(()), d.(tables := d.tables[id := d.tables[id].(slots := d.tables[id].slots[off := p])]))
  }

  function SlotMarked(d: Disk, id: int, off: int, revision: int): Step<()>
  {
    if id !in d.tables then Step(Err(IOError("no hashtable file")), d)
    else
      var p :- Step(SlotAt(d.tables[id], off), d);
      SlotWritten(d, id, off, MarkedSlot(p.0, revision))
  }

  function HashCodesOpened(d: Disk, c: Config, pid: int): Disk
  {
    d.(hashCodes := Opened(d.hashCodes, pid, c.hashCodesPartitionByteSize))
  }

  function KeysOpened(d: Disk, c: Config, pid: int): Disk
  {
    d.(keys := Opened(d.keys, pid, c.keysPartitionByteSize))
  }

  function ValuesOpened(d: Disk, c: Config, pid: int): Disk
  {
    d.(values := Opened(d.values, pid, c.valuesPartitionByteSize))
  }

  function HashCodeAt(d: Disk, pid: int, off: int): Result<HashCodePosting>
  {
    PostingAt(d.hashCodes, pid, off, ZERO_HASH_CODE_POSTING)
  }

  function KeyAt(d: Disk, pid: int, off: int): Result<KeyPosting>
  {
    PostingAt(d.keys, pid, off, ZERO_KEY_POSTING)
  }

  function ValueAt(d: Disk, pid: int, off: int): Result<ValuesPartition.Posting>
  {
    PostingAt(d.values, pid, off, ZERO_VALUE_POSTING)
  }

  function HashCodeWritten(d: Disk, c: Config, pid: int, off: int, p: HashCodePosting): (s: Step<()>)
    ensures s.result.Err? <==> off < 0
    ensures s.result.Err? ==> s.result.error.IOError?
    ensures s.disk == d.(hashCodes := s.disk.hashCodes)
  {
    var m :- Step(WithPosting(d.hashCodes, pid, off, p, c.hashCodesPartitionByteSize), d);
    Step(Ok(()), d.(hashCodes := m.0))
  }

  function KeyWritten(d: Disk, c: Config, pid: int, off: int, p: KeyPosting): (s: Step<()>)
    ensures s.result.Err? <==> off < 0
    ensures s.result.Err? ==> s.result.error.IOError?
    ensures s.disk == d.(keys := s.disk.keys)
  {
    var m :- Step(WithPosting(d.keys, pid, off, p, c.keysPartitionByteSize), d);
    Step(Ok(()), d.(keys := m.0))
  }

  function ValueWritten(d: Disk, c: Config, pid: int, off: int, p: ValuesPartition.Posting): (s: Step<()>)
    ensures s.result.Err? <==> off < 0
    ensures s.result.Err? ==> s.result.error.IOError?
    ensures s.disk == d.(values := s.disk.values)
  {
    var m :- Step(WithPosting(d.values, pid, off, p, c.valuesPartitionByteSize), d);
    Step(Ok(()), d.(values := m.0))
  }

  function HashCodeMarked(d: Disk, c: Config, pid: int, off: int, revision: int): (s: Step<()>)
    ensures s.result.Err? <==> off < 0
    ensures s.result.Err? ==> s.result.error.IOError?
    ensures s.disk == d.(hashCodes := s.disk.hashCodes)
  {
    var p :- Step(HashCodeAt(d, pid, off), d);
    HashCodeWritten(d, c, pid, off, MarkedHashCode(p.0, revision))
  }

  function KeyMarked(d: Disk, c: Config, pid: int, off: int, revision: int): (s: Step<()>)
    ensures s.result.Err? <==> off < 0
    ensures s.result.Err? ==> s.result.error.IOError?
    ensures s.disk == d.(keys := s.disk.keys)
  {
    var p :- Step(KeyAt(d, pid, off), d);
    KeyWritten(d, c, pid, off, MarkedKey(p.0, revision))
  }

  function ValueMarked(d: Disk, c: Config, pid: int, off: int, revision: int): (s: Step<()>)
    ensures s.result.Err? <==> off < 0
    ensures s.result.Err? ==> s.result.error.IOError?
    ensures s.disk == d.(values := s.disk.values)
  {
    var p :- Step(ValueAt(d, pid, off), d);
    ValueWritten(d, c, pid, off, MarkedValue(p.0, revision))
  }

  /** The three requestValueWrite overloads: the reserved (partition id, offset), with the metadata's current id updated. */
  function HashCodeReserved(d: Disk, c: Config, requested: int): Step<(int, int)>
  {
    var r := Reserve(d.hashCodes, d.md.currentHashCodesPartition, c.hashCodesPartitionByteSize, requested);
    var d1 := d.(hashCodes := r.partitions, md := d.md.(currentHashCodesPartition := r.current));
    if r.offset.Err? then Step(Err(r.offset.error), d1) else Step(Ok((r.current, r.offset.value)), d1)
  }

  function KeyReserved(d: Disk, c: Config, requested: int): Step<(int, int)>
  {
    var r := Reserve(d.keys, d.md.currentKeysPartition, c.keysPartitionByteSize, requested);
    var d1 := d.(keys := r.partitions, md := d.md.(currentKeysPartition := r.current));
    if r.offset.Err? then Step(Err(r.offset.error), d1) else Step(Ok((r.current, r.offset.value)), d1)
  }

  function ValueReserved(d: Disk, c: Config, requested: int): Step<(int, int)>
  {
    var r := Reserve(d.values, d.md.currentValuesPartition, c.valuesPartitionByteSize, requested);
    var d1 := d.(values := r.partitions, md := d.md.(currentValuesPartition := r.current));
    if r.offset.Err? then Step(Err(r.offset.error), d1) else Step(Ok((r.current, r.offset.value)), d1)
  }
}
