/**
 * The hashtable file: a 1024-byte header holding the bucket capacity,
 * followed by one fixed-size bucket posting per bucket. A bucket posting
 * points at the first hash-code posting of its bucket.
 */
module Hashtable {
  import opened JavaInt
  import opened Wrappers
  import opened RandomAccess
  import FileHandler

  const HEADER_BYTE_SIZE: int := 1024
  /** flag (byte), createdRevision (long), partition (int), offset (int), deletedRevision (long). */
  const POSTING_BYTE_SIZE: int := 1 + 8 + 4 + 4 + 8

  datatype Posting = Posting(
    flag: int,
    createdRevision: int,
    hashCodePostingPartition: int,
    hashCodePostingPartitionOffset: int,
    deletedRevision: int)

  /** A posting as `new Posting()` makes it: every field zero except deletedRevision, which starts at -1. */
  function NewPosting(): (p: Posting)
    ensures p.flag == FileHandler.FLAG_NEVER_USED && p.deletedRevision == -1
  {
    Posting(0, 0, 0, 0, -1)
  }

  /** Every field holds a value of its Java type. */
  predicate WellFormed(p: Posting)
  {
    Fits(p.flag, 1) && IsLong(p.createdRevision) && IsInt(p.hashCodePostingPartition)
    && IsInt(p.hashCodePostingPartitionOffset) && IsLong(p.deletedRevision)
  }

  function EncodePosting(p: Posting): seq<byte>
  {
    Encode(p.flag, 1) + Encode(p.createdRevision, 8) + Encode(p.hashCodePostingPartition, 4)
    + Encode(p.hashCodePostingPartitionOffset, 4) + Encode(p.deletedRevision, 8)
  }

  /** The posting stored at byte offset `at` of `bs`. */
  function DecodePosting(bs: seq<byte>, at: nat): Posting
    requires at + POSTING_BYTE_SIZE <= |bs|
  {
    Posting(Decode(bs[at..at + 1]), Decode(bs[at + 1..at + 9]), Decode(bs[at + 9..at + 13]),
      Decode(bs[at + 13..at + 17]), Decode(bs[at + 17..at + 25]))
  }

  /** The declared posting size is exactly what writePosting emits. */
  lemma PostingSize(p: Posting)
    ensures |EncodePosting(p)| == POSTING_BYTE_SIZE == 25
  {
  }

  /** readPosting inverts writePosting. */
  lemma PostingRoundTrip(p: Posting)
    requires WellFormed(p)
    ensures DecodePosting(EncodePosting(p), 0) == p
  {
    var bs := EncodePosting(p);
    assert bs[0..1] == Encode(p.flag, 1);
    assert bs[1..9] == Encode(p.createdRevision, 8);
    assert bs[9..13] == Encode(p.hashCodePostingPartition, 4);
    assert bs[13..17] == Encode(p.hashCodePostingPartitionOffset, 4);
    assert bs[17..25] == Encode(p.deletedRevision, 8);
    DecodeEncode(p.flag, 1);
    DecodeEncode(p.createdRevision, 8);
    DecodeEncode(p.hashCodePostingPartition, 4);
    DecodeEncode(p.hashCodePostingPartitionOffset, 4);
    DecodeEncode(p.deletedRevision, 8);
  }

  /** Every 25 bytes read as a posting are written back unchanged. */
  lemma BytesRoundTrip(bs: seq<byte>)
    requires |bs| == POSTING_BYTE_SIZE
    ensures WellFormed(DecodePosting(bs, 0)) && EncodePosting(DecodePosting(bs, 0)) == bs
  {
    EncodeDecode(bs[0..1]);
    EncodeDecode(bs[1..9]);
    EncodeDecode(bs[9..13]);
    EncodeDecode(bs[13..17]);
    EncodeDecode(bs[17..25]);
    assert bs == bs[0..1] + bs[1..9] + bs[9..13] + bs[13..17] + bs[17..25];
  }

  // ---------------------------------------------------------------------
  // Codec over the file cursor

  method ReadPosting(raf: RandomAccessFile) returns (r: Result<Posting>)
    modifies raf
    ensures raf.data == old(raf.data)
    ensures old(raf.pos) + POSTING_BYTE_SIZE <= |raf.data| ==>
      r == Ok(DecodePosting(raf.data, old(raf.pos))) && raf.pos == old(raf.pos) + POSTING_BYTE_SIZE
    ensures old(raf.pos) + POSTING_BYTE_SIZE > |raf.data| ==> r == Err(EndOfFile)
  {
    var flag := raf.ReadByte();
    if flag.Err? { return Err(flag.error); }
    var created := raf.ReadLong();
    if created.Err? { return Err(created.error); }
    var partition := raf.ReadInt();
    if partition.Err? { return Err(partition.error); }
    var offset := raf.ReadInt();
    if offset.Err? { return Err(offset.error); }
    var deleted := raf.ReadLong();
    if deleted.Err? { return Err(deleted.error); }
    r := Ok(Posting(flag.value, created.value, partition.value, offset.value, deleted.value));
  }

  method WritePosting(raf: RandomAccessFile, p: Posting)
    modifies raf
    ensures raf.data == Overwrite(old(raf.data), old(raf.pos), EncodePosting(p))
    ensures raf.pos == old(raf.pos) + POSTING_BYTE_SIZE
  {
    ghost var d0, start := raf.data, raf.pos;
    var a, b, c, d, e := Encode(p.flag, 1), Encode(p.createdRevision, 8), Encode(p.hashCodePostingPartition, 4),
      Encode(p.hashCodePostingPartitionOffset, 4), Encode(p.deletedRevision, 8);
    raf.WriteByte(p.flag);
    ghost var p1 := raf.pos;
    raf.WriteLong(p.createdRevision);
    OverwriteAppendAt(d0, start, a, p1, b);
    ghost var p2 := raf.pos;
    raf.WriteInt(p.hashCodePostingPartition);
    OverwriteAppendAt(d0, start, a + b, p2, c);
    ghost var p3 := raf.pos;
    raf.WriteInt(p.hashCodePostingPartitionOffset);
    OverwriteAppendAt(d0, start, a + b + c, p3, d);
    ghost var p4 := raf.pos;
    raf.WriteLong(p.deletedRevision);
    OverwriteAppendAt(d0, start, a + b + c + d, p4, e);
  }

  /** FileHandler.readPosting(posting, offset): seek, then the codec. */
  method ReadPostingAt(raf: RandomAccessFile, offset: int) returns (r: Result<Posting>)
    modifies raf
    ensures raf.data == old(raf.data)
    ensures offset < 0 ==> r.Err? && r.error.IOError?
    ensures offset >= 0 && offset + POSTING_BYTE_SIZE <= |raf.data| ==> r == Ok(DecodePosting(raf.data, offset))
    ensures offset >= 0 && offset + POSTING_BYTE_SIZE > |raf.data| ==> r == Err(EndOfFile)
  {
    var s := raf.Seek(offset);
    if s.Fail? { return Err(s.error); }
    r := ReadPosting(raf);
  }

  /** FileHandler.writePosting(posting, offset): seek, then the codec. */
  method WritePostingAt(raf: RandomAccessFile, p: Posting, offset: int) returns (r: Outcome)
    modifies raf
    ensures offset < 0 ==> r.Fail? && r.error.IOError? && raf.data == old(raf.data)
    ensures offset >= 0 ==> r == Pass && raf.data == Overwrite(old(raf.data), offset, EncodePosting(p))
  {
    r := raf.Seek(offset);
    if r.Pass? {
      WritePosting(raf, p);
    }
  }

  /** A posting written at an offset is read back from that offset. */
  lemma WriteThenRead(data: seq<byte>, offset: nat, p: Posting)
    requires WellFormed(p)
    ensures var d := Overwrite(data, offset, EncodePosting(p));
      offset + POSTING_BYTE_SIZE <= |d| && DecodePosting(d, offset) == p
  {
    var bs := EncodePosting(p);
    var d := Overwrite(data, offset, bs);
    OverwriteFrame(data, offset, bs);
    PostingRoundTrip(p);
    assert d[offset..offset + 1] == bs[0..1];
    assert d[offset + 1..offset + 9] == bs[1..9];
    assert d[offset + 9..offset + 13] == bs[9..13];
    assert d[offset + 13..offset + 17] == bs[13..17];
    assert d[offset + 17..offset + 25] == bs[17..25];
  }

  // ---------------------------------------------------------------------
  // Marking a posting deleted in place

  /**
   * The file after markPostingAsDeleted: the flag byte becomes 2, the
   * pointer skips 16 bytes (or stops at the end of the file) and the revision
   * is written there.
   */
  function MarkedDeleted(data: seq<byte>, startOffset: nat, revision: int): seq<byte>
  {
    var d1 := Overwrite(data, startOffset, Encode(FileHandler.FLAG_DELETED, 1));
    var at := if startOffset + 1 + 16 <= |d1| then startOffset + 17 else |d1|;
    Overwrite(d1, at, Encode(revision, 8))
  }

  method MarkPostingAsDeleted(raf: RandomAccessFile, startOffset: int, revision: int) returns (r: Outcome)
    modifies raf
    ensures startOffset < 0 ==> r.Fail? && raf.data == old(raf.data)
    ensures startOffset >= 0 ==> r == Pass && raf.data == MarkedDeleted(old(raf.data), startOffset, revision)
  {
    r := raf.Seek(startOffset);
    if r.Fail? { return; }
    raf.WriteByte(FileHandler.FLAG_DELETED);
    var _ := raf.SkipBytes(8 + 4 + 4);
    raf.WriteLong(revision);
  }

  /**
   * On a posting inside the file, marking it deleted sets the flag to 2 and
   * the deleted revision to `revision`; the created revision, the pointer and
   * every byte outside the two patched fields stay as they were.
   */
  lemma MarkDeletedEffect(data: seq<byte>, off: nat, revision: int)
    requires off + POSTING_BYTE_SIZE <= |data| && IsLong(revision)
    ensures var m := MarkedDeleted(data, off, revision);
      |m| == |data|
      && DecodePosting(m, off) == DecodePosting(data, off).(flag := 2, deletedRevision := revision)
      && forall i :: 0 <= i < |data| && !(off <= i < off + 1) && !(off + 17 <= i < off + 25) ==> m[i] == data[i]
  {
    var d1 := Overwrite(data, off, Encode(FileHandler.FLAG_DELETED, 1));
    var m := MarkedDeleted(data, off, revision);
    assert m == Overwrite(d1, off + 17, Encode(revision, 8));
    assert m[off..off + 1] == Encode(2, 1);
    assert m[off + 1..off + 9] == data[off + 1..off + 9];
    assert m[off + 9..off + 13] == data[off + 9..off + 13];
    assert m[off + 13..off + 17] == data[off + 13..off + 17];
    assert m[off + 17..off + 25] == Encode(revision, 8);
    DecodeEncode(2, 1);
    DecodeEncode(revision, 8);
  }

  // ---------------------------------------------------------------------
  // Bucket addressing

  const TWO_64: int := 0x1_0000_0000_0000_0000

  /** `hashCode & (capacity - 1)` on Java longs: the mask is the int `capacity - 1` widened to a long. */
  function BucketIndex(hashCode: int, capacity: int): int
  {
    Wrap(And(hashCode % TWO_64, (capacity - 1) % TWO_64), 8)
  }

  /** `(int)(HEADER_BYTE_SIZE + POSTING_BYTE_SIZE * bucketIndex)`, the cast keeping the low 32 bits. */
  function SlotOffset(hashCode: int, capacity: int): int
  {
    Wrap(HEADER_BYTE_SIZE + POSTING_BYTE_SIZE * BucketIndex(hashCode, capacity), 4)
  }

  /** For a positive capacity the bucket index lies in [0, capacity - 1]. */
  lemma BucketIndexInRange(hashCode: int, capacity: int)
    requires 1 <= capacity <= MAX_INT
    ensures 0 <= BucketIndex(hashCode, capacity) < capacity
  {
    ModUnique(capacity - 1, TWO_64, 0, capacity - 1);
    AndBound(hashCode % TWO_64, capacity - 1);
    Pow256Values();
  }

  lemma {:induction false} Pow2Add(a: nat, b: nat)
    ensures Pow2(a + b) == Pow2(a) * Pow2(b)
  {
    if a > 0 {
      Pow2Add(a - 1, b);
    }
  }

  lemma {:induction false} Pow2Is256(n: nat)
    ensures Pow2(8 * n) == Pow256(n)
  {
    if n > 0 {
      Pow2Add(8, 8 * (n - 1));
      assert Pow2(8) == 256;
      Pow2Is256(n - 1);
    }
  }

  /** Reducing modulo a multiple of m first does not change the remainder modulo m. */
  lemma ModOfMod(x: int, m: int, k: int)
    requires m > 0 && k > 0
    ensures (x % (m * k)) % m == x % m
  {
    var u := x % (m * k);
    var q := x / (m * k);
    assert x == q * (m * k) + u;
    var q2 := u / m;
    assert u == q2 * m + u % m;
    assert x == (q * k + q2) * m + u % m;
    ModUnique(x, m, q * k + q2, u % m);
  }

  lemma Pow2AtMost(k: nat)
    requires k <= 30
    ensures Pow2(k) <= 0x4000_0000
  {
    var big := Pow2(30);
    assert big == 0x4000_0000 by {
      Pow2Is256(4);
      Pow256Values();
      assert Pow2(32) == 4 * Pow2(30);
    }
    Pow2Add(k, 30 - k);
    MulAtLeast(Pow2(30 - k), Pow2(k));
  }

  /** For a capacity that is a power of two, the bucket index is the hash code modulo the capacity. */
  lemma BucketIndexPowerOfTwo(hashCode: int, k: nat)
    requires k <= 30
    ensures BucketIndex(hashCode, Pow2(k)) == hashCode % Pow2(k)
  {
    var cap := Pow2(k);
    Pow2AtMost(k);
    assert (cap - 1) % TWO_64 == cap - 1 by {
      ModUnique(cap - 1, TWO_64, 0, cap - 1);
    }
    var u := hashCode % TWO_64;
    assert And(u, cap - 1) == u % cap by {
      AndLowBits(u, k);
    }
    assert u % cap == hashCode % cap by {
      Pow2Add(k, 64 - k);
      Pow2Is256(8);
      Pow256Values();
      ModOfMod(hashCode, cap, Pow2(64 - k));
    }
    assert Fits(u % cap, 8) by {
      Pow256Values();
    }
  }

  /**
   * When the whole file is addressable by an int, a bucket's slot starts at
   * 1024 + 25 * index, a whole number of postings past the header, and lies
   * inside a file formatted to 1024 + 25 * capacity bytes.
   */
  lemma SlotInsideFile(hashCode: int, capacity: int)
    requires 1 <= capacity && HEADER_BYTE_SIZE + POSTING_BYTE_SIZE * capacity <= MAX_INT
    ensures var off := SlotOffset(hashCode, capacity);
      off == HEADER_BYTE_SIZE + POSTING_BYTE_SIZE * BucketIndex(hashCode, capacity)
      && HEADER_BYTE_SIZE <= off && (off - HEADER_BYTE_SIZE) % POSTING_BYTE_SIZE == 0
      && off + POSTING_BYTE_SIZE <= HEADER_BYTE_SIZE + POSTING_BYTE_SIZE * capacity
  {
    BucketIndexInRange(hashCode, capacity);
    Pow256Values();
  }

  // ---------------------------------------------------------------------
  // The hashtable file handler

  class Hashtable {
    const versionId: int
    const raf: RandomAccessFile
    /** The capacity cached from the header when the file was opened or its header last written; None before. */
    var header: Option<int>

    constructor (versionId: int, raf: RandomAccessFile)
      ensures this.versionId == versionId && this.raf == raf && header == None
    {
      this.versionId := versionId;
      this.raf := raf;
      header := None;
    }

    /** open(): a fresh header object is cached first, then filled from the int at offset 0. */
    method Open() returns (r: Outcome)
      modifies this, raf
      ensures raf.data == old(raf.data)
      ensures |raf.data| >= 4 ==> r == Pass && header == Some(Decode(raf.data[0..4]))
      ensures |raf.data| < 4 ==> r == Fail(EndOfFile) && header == Some(0)
    {
      header := Some(0);
      var s := raf.Seek(0);
      var capacity := raf.ReadInt();
      if capacity.Err? { return Fail(capacity.error); }
      header := Some(capacity.value);
      r := Pass;
    }

    /** writeHeader at offset 0; later offset computations use the capacity written. */
    method WriteHeader(postingsCapacity: int)
      modifies this, raf
      ensures raf.data == Overwrite(old(raf.data), 0, Encode(postingsCapacity, 4))
      ensures header == Some(postingsCapacity)
    {
      var s := raf.Seek(0);
      raf.WriteInt(postingsCapacity);
      header := Some(postingsCapacity);
    }

    /** calculateHashCodePostingOffset: the bucket of the hash code in a table of the capacity the header holds. */
    function CalculateHashCodePostingOffset(hashCode: int): (offset: int)
      reads this
      requires header.Some?
      ensures 1 <= header.value && HEADER_BYTE_SIZE + POSTING_BYTE_SIZE * header.value <= MAX_INT ==>
        HEADER_BYTE_SIZE <= offset && (offset - HEADER_BYTE_SIZE) % POSTING_BYTE_SIZE == 0
        && offset + POSTING_BYTE_SIZE <= HEADER_BYTE_SIZE + POSTING_BYTE_SIZE * header.value
    {
      if 1 <= header.value && HEADER_BYTE_SIZE + POSTING_BYTE_SIZE * header.value <= MAX_INT then
        SlotInsideFile(hashCode, header.value);
        SlotOffset(hashCode, header.value)
      else SlotOffset(hashCode, header.value)
    }

    /** After writeHeader(c), bucket offsets are those of a table of capacity c. */
    method WriteHeaderThenOffset(capacity: int, hashCode: int) returns (offset: int)
      requires 1 <= capacity && HEADER_BYTE_SIZE + POSTING_BYTE_SIZE * capacity <= MAX_INT
      modifies this, raf
      ensures header == Some(capacity)
      ensures offset == CalculateHashCodePostingOffset(hashCode)
      ensures HEADER_BYTE_SIZE <= offset && offset + POSTING_BYTE_SIZE <= HEADER_BYTE_SIZE + POSTING_BYTE_SIZE * capacity
    {
      WriteHeader(capacity);
      offset := CalculateHashCodePostingOffset(hashCode);
      SlotInsideFile(hashCode, capacity);
    }
  }
}
