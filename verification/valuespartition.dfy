/**
 * A values partition file: a 1024-byte header (next free offset, bytes left)
 * followed by variable-length value postings appended one after the other.
 */
module ValuesPartition {
  import opened JavaInt
  import opened Wrappers
  import opened RandomAccess
  import FileHandler

  const HEADER_BYTE_SIZE: int := 1024

  datatype Header = Header(nextPostingOffset: int, bytesLeft: int)

  /**
   * A value posting. `bytesLength` 0 stands for a null value; `bytes` models
   * the Java array, with a null array as the empty sequence.
   */
  datatype Posting = Posting(flag: int, createdRevision: int, bytesLength: int, bytes: seq<byte>, deletedRevision: int)

  /** getPostingByteSize: what the store reserves for a posting, an int sum. */
  function PostingByteSize(p: Posting): int
  {
    Wrap(1 + 8 + 8 + 8 + 4 + p.bytesLength + 8, 4)
  }

  predicate WellFormed(p: Posting)
  {
    Fits(p.flag, 1) && IsLong(p.createdRevision) && IsInt(p.bytesLength) && IsLong(p.deletedRevision)
    && (p.bytesLength > 0 ==> |p.bytes| == p.bytesLength)
  }

  /** The payload writePosting emits: the first bytesLength bytes, or nothing when bytesLength is not positive. */
  function Payload(p: Posting): seq<byte>
    requires p.bytesLength > 0 ==> p.bytesLength <= |p.bytes|
  {
    if p.bytesLength > 0 then p.bytes[..p.bytesLength] else []
  }

  function EncodePosting(p: Posting): seq<byte>
    requires p.bytesLength > 0 ==> p.bytesLength <= |p.bytes|
  {
    Encode(p.flag, 1) + Encode(p.createdRevision, 8) + Encode(p.bytesLength, 4) + Payload(p) + Encode(p.deletedRevision, 8)
  }

  /**
   * The written posting is 21 + bytesLength bytes, 16 fewer than the size
   * the store reserves for it, so a reservation always covers the write.
   */
  lemma ReservationCoversWrite(p: Posting)
    requires WellFormed(p) && 0 <= p.bytesLength && p.bytesLength + 37 <= MAX_INT
    ensures |EncodePosting(p)| == 21 + p.bytesLength
    ensures PostingByteSize(p) == |EncodePosting(p)| + 16
  {
    Pow256Values();
  }

  /**
   * readPosting on `data` at `at`, into a posting object that held `prev`:
   * flag, created revision and length, then the payload only for a positive
   * length (a short payload is an IOException), then the deleted revision.
   * For a length that is not positive the object keeps its old bytes.
   */
  function DecodePosting(data: seq<byte>, at: nat, prev: Posting): Result<Posting>
  {
    if at + 13 > |data| then Err(EndOfFile)
    else
      var flag := Decode(data[at..at + 1]);
      var created := Decode(data[at + 1..at + 9]);
      var len := Decode(data[at + 9..at + 13]);
      if len > 0 && at + 13 + len > |data| then Err(IOError("Unexpected EOF"))
      else
        var bytes := if len > 0 then data[at + 13..at + 13 + len] else prev.bytes;
        var end := if len > 0 then at + 13 + len else at + 13;
        if end + 8 > |data| then Err(EndOfFile)
        else Ok(Posting(flag, created, len, bytes, Decode(data[end..end + 8])))
  }

  /** The number of bytes readPosting consumes for a posting it decodes. */
  function ConsumedBytes(len: int): nat
  {
    if len > 0 then 21 + len else 21
  }

  method ReadPosting(raf: RandomAccessFile, prev: Posting) returns (r: Result<Posting>)
    modifies raf
    ensures raf.data == old(raf.data)
    ensures r == DecodePosting(raf.data, old(raf.pos), prev)
    ensures r.Ok? ==> raf.pos == old(raf.pos) + ConsumedBytes(r.value.bytesLength)
  {
    var fields := ReadFixedFields(raf);
    if fields.Err? { return Err(fields.error); }
    var (flag, created, len) := fields.value;
    var bytes := prev.bytes;
    if len > 0 {
      var count, read := raf.Read(len);
      if count != len {
        return Err(IOError("Unexpected EOF"));
      }
      bytes := read;
    }
    var deleted := raf.ReadLong();
    if deleted.Err? { return Err(deleted.error); }
    r := Ok(Posting(flag, created, len, bytes, deleted.value));
  }

  /** The flag, created revision and length readPosting reads first: 13 bytes, or EOFException. */
  method ReadFixedFields(raf: RandomAccessFile) returns (r: Result<(int, int, int)>)
    modifies raf
    ensures raf.data == old(raf.data)
    ensures old(raf.pos) + 13 <= |raf.data| ==>
      var at := old(raf.pos);
      r == Ok((Decode(raf.data[at..at + 1]), Decode(raf.data[at + 1..at + 9]), Decode(raf.data[at + 9..at + 13])))
      && raf.pos == at + 13
    ensures old(raf.pos) + 13 > |raf.data| ==> r == Err(EndOfFile)
  {
    var flag := raf.ReadByte();
    if flag.Err? { return Err(flag.error); }
    var created := raf.ReadLong();
    if created.Err? { return Err(created.error); }
    var len := raf.ReadInt();
    if len.Err? { return Err(len.error); }
    r := Ok((flag.value, created.value, len.value));
  }

  method WritePosting(raf: RandomAccessFile, p: Posting)
    requires p.bytesLength > 0 ==> p.bytesLength <= |p.bytes|
    modifies raf
    ensures raf.data == Overwrite(old(raf.data), old(raf.pos), EncodePosting(p))
    ensures raf.pos == old(raf.pos) + |EncodePosting(p)|
  {
    ghost var d0, start := raf.data, raf.pos;
    raf.WriteByte(p.flag);
    ghost var d1, p1 := raf.data, raf.pos;
    raf.WriteLong(p.createdRevision);
    ghost var d2, p2 := raf.data, raf.pos;
    raf.WriteInt(p.bytesLength);
    ghost var d3, p3 := raf.data, raf.pos;
    if p.bytesLength > 0 {
      raf.Write(p.bytes[..p.bytesLength]);
    }
    ghost var d4, p4 := raf.data, raf.pos;
    raf.WriteLong(p.deletedRevision);
    PostingWrittenInOrder(d0, start, p, d1, d2, d3, d4, raf.data, p1, p2, p3, p4);
  }

  /** The five field writes of writePosting, one after the other, write the encoded posting. */
  lemma PostingWrittenInOrder(data: seq<byte>, start: nat, p: Posting, d1: seq<byte>, d2: seq<byte>,
                              d3: seq<byte>, d4: seq<byte>, d5: seq<byte>, p1: int, p2: int, p3: int, p4: int)
    requires p.bytesLength > 0 ==> p.bytesLength <= |p.bytes|
    requires p1 == start + 1 && p2 == p1 + 8 && p3 == p2 + 4 && p4 == p3 + |Payload(p)|
    requires d1 == Overwrite(data, start, Encode(p.flag, 1))
    requires d2 == Overwrite(d1, p1, Encode(p.createdRevision, 8))
    requires d3 == Overwrite(d2, p2, Encode(p.bytesLength, 4))
    requires d4 == if p.bytesLength > 0 then Overwrite(d3, p3, Payload(p)) else d3
    requires d5 == Overwrite(d4, p4, Encode(p.deletedRevision, 8))
    ensures d5 == Overwrite(data, start, EncodePosting(p))
  {
    var a, b, c, d, e := Encode(p.flag, 1), Encode(p.createdRevision, 8), Encode(p.bytesLength, 4),
      Payload(p), Encode(p.deletedRevision, 8);
    OverwriteAppendAt(data, start, a, p1, b);
    OverwriteAppendAt(data, start, a + b, p2, c);
    if p.bytesLength > 0 {
      OverwriteAppendAt(data, start, a + b + c, p3, d);
    } else {
      assert a + b + c + d == a + b + c;
    }
    OverwriteAppendAt(data, start, a + b + c + d, p4, e);
  }

  /** Where each field of a posting lies in its encoding. */
  lemma EncodedFields(p: Posting)
    requires p.bytesLength > 0 ==> p.bytesLength <= |p.bytes|
    ensures var bs := EncodePosting(p);
      var n := |Payload(p)|;
      |bs| == 21 + n
      && bs[0..1] == Encode(p.flag, 1) && bs[1..9] == Encode(p.createdRevision, 8)
      && bs[9..13] == Encode(p.bytesLength, 4) && bs[13..13 + n] == Payload(p)
      && bs[13 + n..21 + n] == Encode(p.deletedRevision, 8)
  {
    var a, b, c, d, e := Encode(p.flag, 1), Encode(p.createdRevision, 8), Encode(p.bytesLength, 4),
      Payload(p), Encode(p.deletedRevision, 8);
    var bs := a + b + c + d + e;
    assert bs[0..1] == a;
    assert bs[1..9] == b;
    assert bs[9..13] == c;
    assert bs[13..13 + |d|] == d;
    assert bs[13 + |d|..21 + |d|] == e;
  }

  /** readPosting of bytes laid out as writePosting lays a well-formed posting out. */
  lemma DecodeLaidOut(d: seq<byte>, at: nat, p: Posting, prev: Posting)
    requires WellFormed(p)
    requires var n := |Payload(p)|;
      at + 21 + n <= |d|
      && d[at..at + 1] == Encode(p.flag, 1) && d[at + 1..at + 9] == Encode(p.createdRevision, 8)
      && d[at + 9..at + 13] == Encode(p.bytesLength, 4) && d[at + 13..at + 13 + n] == Payload(p)
      && d[at + 13 + n..at + 21 + n] == Encode(p.deletedRevision, 8)
    ensures DecodePosting(d, at, prev) == Ok(if p.bytesLength > 0 then p else p.(bytes := prev.bytes))
  {
    DecodeEncode(p.flag, 1);
    DecodeEncode(p.createdRevision, 8);
    DecodeEncode(p.bytesLength, 4);
    DecodeEncode(p.deletedRevision, 8);
    if p.bytesLength > 0 {
      DecodeFields(d, at, prev, p, |Payload(p)|);
    } else {
      DecodeFields(d, at, prev, p.(bytes := prev.bytes), |Payload(p)|);
    }
  }

  /**
   * readPosting after writePosting at the same offset gives the posting back;
   * for a null value (length not positive) the reading object keeps its own bytes.
   */
  lemma PostingRoundTrip(data: seq<byte>, at: nat, p: Posting, prev: Posting)
    requires WellFormed(p)
    ensures DecodePosting(Overwrite(data, at, EncodePosting(p)), at, prev)
         == Ok(if p.bytesLength > 0 then p else p.(bytes := prev.bytes))
  {
    var bs := EncodePosting(p);
    var n := |Payload(p)|;
    EncodedFields(p);
    ReadBytes(data, at, bs, 0, 1);
    ReadBytes(data, at, bs, 1, 9);
    ReadBytes(data, at, bs, 9, 13);
    ReadBytes(data, at, bs, 13, 13 + n);
    ReadBytes(data, at, bs, 13 + n, 21 + n);
    DecodeLaidOut(Overwrite(data, at, bs), at, p, prev);
  }

  /** A payload cut short by the end of the file is reported as "Unexpected EOF". */
  lemma ShortPayload(data: seq<byte>, at: nat, prev: Posting)
    requires at + 13 <= |data|
    requires var len := Decode(data[at + 9..at + 13]); len > 0 && at + 13 + len > |data|
    ensures DecodePosting(data, at, prev) == Err(IOError("Unexpected EOF"))
  {
  }

  /** FileHandler.readPosting(posting, offset). */
  method ReadPostingAt(raf: RandomAccessFile, prev: Posting, offset: int) returns (r: Result<Posting>)
    modifies raf
    ensures raf.data == old(raf.data)
    ensures offset < 0 ==> r.Err? && r.error.IOError?
    ensures offset >= 0 ==> r == DecodePosting(raf.data, offset, prev)
  {
    var s := raf.Seek(offset);
    if s.Fail? { return Err(s.error); }
    r := ReadPosting(raf, prev);
  }

  /** FileHandler.writePosting(posting, offset). */
  method WritePostingAt(raf: RandomAccessFile, p: Posting, offset: int) returns (r: Outcome)
    requires p.bytesLength > 0 ==> p.bytesLength <= |p.bytes|
    modifies raf
    ensures offset < 0 ==> r.Fail? && raf.data == old(raf.data)
    ensures offset >= 0 ==> r == Pass && raf.data == Overwrite(old(raf.data), offset, EncodePosting(p))
  {
    r := raf.Seek(offset);
    if r.Pass? {
      WritePosting(raf, p);
    }
  }

  // ---------------------------------------------------------------------
  // Marking a posting deleted in place

  /**
   * markPostingAsDeleted: write flag 2, skip the created revision, read the
   * length, skip that many bytes, write the revision. Returns the file and
   * the outcome; the flag is already written when the length read fails.
   */
  function MarkedDeleted(data: seq<byte>, off: nat, revision: int): (seq<byte>, Outcome)
  {
    var d1 := Overwrite(data, off, Encode(FileHandler.FLAG_DELETED, 1));
    var p2 := if off + 1 + 8 <= |d1| then off + 9 else |d1|;
    if p2 + 4 > |d1| then (d1, Fail(EndOfFile))
    else
      var len := Decode(d1[p2..p2 + 4]);
      var p3 := p2 + 4;
      var p4 := if len <= 0 then p3 else if p3 + len <= |d1| then p3 + len else |d1|;
      (Overwrite(d1, p4, Encode(revision, 8)), Pass)
  }

  method MarkPostingAsDeleted(raf: RandomAccessFile, startOffset: int, revision: int) returns (r: Outcome)
    modifies raf
    ensures startOffset < 0 ==> r.Fail? && raf.data == old(raf.data)
    ensures startOffset >= 0 ==> (raf.data, r) == MarkedDeleted(old(raf.data), startOffset, revision)
  {
    r := raf.Seek(startOffset);
    if r.Fail? { return; }
    raf.WriteByte(FileHandler.FLAG_DELETED);
    var _ := raf.SkipBytes(8);
    var len := raf.ReadInt();
    if len.Err? { return Fail(len.error); }
    var _ := raf.SkipBytes(len.value);
    raf.WriteLong(revision);
  }

  /** Where markPostingAsDeleted writes for a posting that lies inside the file. */
  lemma MarkedDeletedSteps(data: seq<byte>, off: nat, revision: int, n: nat)
    requires off + 13 <= |data|
    requires n == (var len := Decode(data[off + 9..off + 13]); if len > 0 then len else 0)
    requires off + 21 + n <= |data|
    ensures MarkedDeleted(data, off, revision)
         == (Overwrite(Overwrite(data, off, Encode(FileHandler.FLAG_DELETED, 1)), off + 13 + n, Encode(revision, 8)), Pass)
  {
    var d1 := Overwrite(data, off, Encode(FileHandler.FLAG_DELETED, 1));
    assert d1[off + 9..off + 13] == data[off + 9..off + 13];
  }

  /** DecodePosting from the values its fields' slices decode to. */
  lemma DecodeFields(data: seq<byte>, at: nat, prev: Posting, q: Posting, n: nat)
    requires n == if q.bytesLength > 0 then q.bytesLength else 0
    requires at + 21 + n <= |data|
      && Decode(data[at..at + 1]) == q.flag && Decode(data[at + 1..at + 9]) == q.createdRevision
      && Decode(data[at + 9..at + 13]) == q.bytesLength
      && q.bytes == (if q.bytesLength > 0 then data[at + 13..at + 13 + n] else prev.bytes)
      && Decode(data[at + 13 + n..at + 21 + n]) == q.deletedRevision
    ensures DecodePosting(data, at, prev) == Ok(q)
  {
  }

  /**
   * On a posting that lies inside the file, marking it deleted succeeds,
   * keeps the file length, and changes no byte other than the flag and the
   * eight bytes of the deleted revision (at start + 13 + length).
   */
  lemma MarkDeletedFrame(data: seq<byte>, off: nat, revision: int, prev: Posting, p: Posting)
    requires DecodePosting(data, off, prev) == Ok(p)
    ensures var end := off + 13 + (if p.bytesLength > 0 then p.bytesLength else 0);
      var m := MarkedDeleted(data, off, revision).0;
      MarkedDeleted(data, off, revision).1 == Pass && |m| == |data|
      && forall i :: 0 <= i < |data| && i != off && !(end <= i < end + 8) ==> m[i] == data[i]
  {
    var n := if p.bytesLength > 0 then p.bytesLength else 0;
    MarkedDeletedSteps(data, off, revision, n);
  }

  /** What a decoded posting's fields are read from. */
  lemma DecodedFields(data: seq<byte>, at: nat, prev: Posting, q: Posting, n: nat)
    requires DecodePosting(data, at, prev) == Ok(q)
    requires n == if q.bytesLength > 0 then q.bytesLength else 0
    ensures at + 21 + n <= |data|
      && Decode(data[at..at + 1]) == q.flag && Decode(data[at + 1..at + 9]) == q.createdRevision
      && Decode(data[at + 9..at + 13]) == q.bytesLength
      && q.bytes == (if q.bytesLength > 0 then data[at + 13..at + 13 + n] else prev.bytes)
      && Decode(data[at + 13 + n..at + 21 + n]) == q.deletedRevision
  {
  }

  /**
   * readPosting of a posting whose flag byte and deleted revision were
   * rewritten, and whose bytes in between were left alone.
   */
  lemma DecodeRemarked(data: seq<byte>, m: seq<byte>, off: nat, prev: Posting, p: Posting, revision: int, n: nat)
    requires IsLong(revision)
    requires DecodePosting(data, off, prev) == Ok(p)
    requires n == if p.bytesLength > 0 then p.bytesLength else 0
    requires off + 21 + n <= |m|
    requires m[off..off + 1] == Encode(FileHandler.FLAG_DELETED, 1)
    requires m[off + 1..off + 13 + n] == data[off + 1..off + 13 + n]
    requires m[off + 13 + n..off + 21 + n] == Encode(revision, 8)
    ensures DecodePosting(m, off, prev) == Ok(p.(flag := FileHandler.FLAG_DELETED, deletedRevision := revision))
  {
    DecodedFields(data, off, prev, p, n);
    SubSlice(m, data, off + 1, off + 13 + n, off + 1, off + 9);
    SubSlice(m, data, off + 1, off + 13 + n, off + 9, off + 13);
    SubSlice(m, data, off + 1, off + 13 + n, off + 13, off + 13 + n);
    DecodeEncode(2, 1);
    DecodeEncode(revision, 8);
    DecodeFields(m, off, prev, p.(flag := FileHandler.FLAG_DELETED, deletedRevision := revision), n);
  }

  /**
   * Read back, a posting marked deleted has flag 2 and deleted revision
   * `revision`; its created revision, length and payload are unchanged.
   */
  lemma MarkDeletedEffect(data: seq<byte>, off: nat, revision: int, prev: Posting, p: Posting)
    requires IsLong(revision)
    requires DecodePosting(data, off, prev) == Ok(p)
    ensures DecodePosting(MarkedDeleted(data, off, revision).0, off, prev)
         == Ok(p.(flag := FileHandler.FLAG_DELETED, deletedRevision := revision))
  {
    var n := if p.bytesLength > 0 then p.bytesLength else 0;
    DecodedFields(data, off, prev, p, n);
    MarkedDeletedSteps(data, off, revision, n);
    RemarkedBytes(data, off, revision, n);
    DecodeRemarked(data, Overwrite(Overwrite(data, off, Encode(FileHandler.FLAG_DELETED, 1)), off + 13 + n, Encode(revision, 8)),
      off, prev, p, revision, n);
  }

  /** The flag byte and the deleted revision rewritten, with the bytes between them left alone. */
  lemma RemarkedBytes(data: seq<byte>, off: nat, revision: int, n: nat)
    requires off + 21 + n <= |data|
    ensures var m := Overwrite(Overwrite(data, off, Encode(FileHandler.FLAG_DELETED, 1)), off + 13 + n, Encode(revision, 8));
      off + 21 + n <= |m|
      && m[off..off + 1] == Encode(FileHandler.FLAG_DELETED, 1)
      && m[off + 1..off + 13 + n] == data[off + 1..off + 13 + n]
      && m[off + 13 + n..off + 21 + n] == Encode(revision, 8)
  {
    TwoWrites(data, off, Encode(FileHandler.FLAG_DELETED, 1), off + 13 + n, Encode(revision, 8));
  }

  // ---------------------------------------------------------------------
  // Header

  function EncodeHeader(h: Header): seq<byte>
  {
    Encode(h.nextPostingOffset, 4) + Encode(h.bytesLeft, 4)
  }

  /** readHeader at offset 0: two ints. */
  method ReadHeader(raf: RandomAccessFile) returns (r: Result<Header>)
    modifies raf
    ensures raf.data == old(raf.data)
    ensures |raf.data| >= 8 ==> r == Ok(Header(Decode(raf.data[0..4]), Decode(raf.data[4..8])))
    ensures |raf.data| < 8 ==> r == Err(EndOfFile)
  {
    var _ := raf.Seek(0);
    var next := raf.ReadInt();
    if next.Err? { return Err(next.error); }
    var left := raf.ReadInt();
    if left.Err? { return Err(left.error); }
    r := Ok(Header(next.value, left.value));
  }

  /** writeHeader at offset 0. */
  method WriteHeader(raf: RandomAccessFile, h: Header)
    modifies raf
    ensures raf.data == Overwrite(old(raf.data), 0, EncodeHeader(h))
  {
    var _ := raf.Seek(0);
    ghost var d0 := raf.data;
    raf.WriteInt(h.nextPostingOffset);
    raf.WriteInt(h.bytesLeft);
    OverwriteAppend(d0, 0, Encode(h.nextPostingOffset, 4), Encode(h.bytesLeft, 4));
  }

  /** The header codec round-trips both ints, and leaves the rest of the header area alone. */
  lemma HeaderRoundTrip(data: seq<byte>, h: Header)
    requires IsInt(h.nextPostingOffset) && IsInt(h.bytesLeft)
    ensures var d := Overwrite(data, 0, EncodeHeader(h));
      |d| >= 8 && Header(Decode(d[0..4]), Decode(d[4..8])) == h
      && forall i :: 8 <= i < |data| ==> d[i] == data[i]
  {
    var d := Overwrite(data, 0, EncodeHeader(h));
    assert d[0..4] == Encode(h.nextPostingOffset, 4);
    assert d[4..8] == Encode(h.bytesLeft, 4);
    DecodeEncode(h.nextPostingOffset, 4);
    DecodeEncode(h.bytesLeft, 4);
  }
}
