/**
 * The metadata file: one 1024-byte header holding the file format version,
 * the store revision, the current hashtable generation, the partitions new
 * postings are appended to, and the number of value postings. It holds no
 * postings.
 */
module Metadata {
  import opened JavaInt
  import opened Wrappers
  import opened RandomAccess

  const HEADER_BYTE_SIZE: int := 1024

  /** The bytes the header occupies: int, long, four ints, long. */
  const ENCODED_HEADER_SIZE: int := 4 + 8 + 4 + 4 + 4 + 4 + 8

  /** The seven header fields as a value. */
  datatype HeaderValue = HeaderValue(
    fileFormatVersion: int,
    storeRevision: int,
    currentHashtableId: int,
    currentHashCodesPartition: int,
    currentKeysPartition: int,
    currentValuesPartition: int,
    valuePostingsCount: int)

  predicate WellFormed(v: HeaderValue)
  {
    IsInt(v.fileFormatVersion) && IsLong(v.storeRevision) && IsInt(v.currentHashtableId)
    && IsInt(v.currentHashCodesPartition) && IsInt(v.currentKeysPartition)
    && IsInt(v.currentValuesPartition) && IsLong(v.valuePostingsCount)
  }

  function EncodeHeader(v: HeaderValue): seq<byte>
  {
    Encode(v.fileFormatVersion, 4) + Encode(v.storeRevision, 8) + Encode(v.currentHashtableId, 4)
    + Encode(v.currentHashCodesPartition, 4) + Encode(v.currentKeysPartition, 4)
    + Encode(v.currentValuesPartition, 4) + Encode(v.valuePostingsCount, 8)
  }

  /**
   * What readHeader leaves in a header object that held `v`, reading from
   * offset 0 of `data`: fields are assigned in file order, and a field whose
   * bytes run past the end of the file stops the read (EOFException) with the
   * earlier fields already assigned.
   */
  function Decoded(v: HeaderValue, data: seq<byte>): HeaderValue
  {
    var n := |data|;
    v.(fileFormatVersion := if n >= 4 then Decode(data[0..4]) else v.fileFormatVersion)
     .(storeRevision := if n >= 12 then Decode(data[4..12]) else v.storeRevision)
     .(currentHashtableId := if n >= 16 then Decode(data[12..16]) else v.currentHashtableId)
     .(currentHashCodesPartition := if n >= 20 then Decode(data[16..20]) else v.currentHashCodesPartition)
     .(currentKeysPartition := if n >= 24 then Decode(data[20..24]) else v.currentKeysPartition)
     .(currentValuesPartition := if n >= 28 then Decode(data[24..28]) else v.currentValuesPartition)
     .(valuePostingsCount := if n >= 36 then Decode(data[28..36]) else v.valuePostingsCount)
  }

  /** The header's 36 bytes fit the 1024-byte header area. */
  lemma HeaderFits(v: HeaderValue)
    ensures |EncodeHeader(v)| == ENCODED_HEADER_SIZE
    ensures ENCODED_HEADER_SIZE <= HEADER_BYTE_SIZE
  {
  }

  /**
   * readHeader after writeHeader restores all seven fields, whatever the
   * reading object held before, and the rest of the header area is untouched.
   */
  lemma HeaderRoundTrip(data: seq<byte>, v: HeaderValue, before: HeaderValue)
    requires WellFormed(v)
    ensures Decoded(before, Overwrite(data, 0, EncodeHeader(v))) == v
    ensures forall i :: ENCODED_HEADER_SIZE <= i < |data| ==> Overwrite(data, 0, EncodeHeader(v))[i] == data[i]
  {
    var d := Overwrite(data, 0, EncodeHeader(v));
    assert Decode(d[0..4]) == v.fileFormatVersion by {
      assert d[0..4] == Encode(v.fileFormatVersion, 4);
      DecodeEncode(v.fileFormatVersion, 4);
    }
    assert Decode(d[4..12]) == v.storeRevision by {
      assert d[4..12] == Encode(v.storeRevision, 8);
      DecodeEncode(v.storeRevision, 8);
    }
    assert Decode(d[12..16]) == v.currentHashtableId by {
      assert d[12..16] == Encode(v.currentHashtableId, 4);
      DecodeEncode(v.currentHashtableId, 4);
    }
    assert Decode(d[16..20]) == v.currentHashCodesPartition by {
      assert d[16..20] == Encode(v.currentHashCodesPartition, 4);
      DecodeEncode(v.currentHashCodesPartition, 4);
    }
    assert Decode(d[20..24]) == v.currentKeysPartition by {
      assert d[20..24] == Encode(v.currentKeysPartition, 4);
      DecodeEncode(v.currentKeysPartition, 4);
    }
    assert Decode(d[24..28]) == v.currentValuesPartition by {
      assert d[24..28] == Encode(v.currentValuesPartition, 4);
      DecodeEncode(v.currentValuesPartition, 4);
    }
    assert Decode(d[28..36]) == v.valuePostingsCount by {
      assert d[28..36] == Encode(v.valuePostingsCount, 8);
      DecodeEncode(v.valuePostingsCount, 8);
    }
  }

  /** Metadata.Header: the in-memory header object the store reads, changes and writes back. */
  class Header {
    var fileFormatVersion: int
    var currentHashtableId: int
    var currentHashCodesPartition: int
    var currentKeysPartition: int
    var currentValuesPartition: int
    var valuePostingsCount: int
    var storeRevision: int

    /** A new header object: every field zero. */
    constructor ()
      ensures Value() == HeaderValue(0, 0, 0, 0, 0, 0, 0)
    {
      fileFormatVersion, currentHashtableId, currentHashCodesPartition := 0, 0, 0;
      currentKeysPartition, currentValuesPartition, valuePostingsCount, storeRevision := 0, 0, 0, 0;
    }

    function Value(): HeaderValue
      reads this
    {
      HeaderValue(fileFormatVersion, storeRevision, currentHashtableId, currentHashCodesPartition,
        currentKeysPartition, currentValuesPartition, valuePostingsCount)
    }

    /** increaseRevision: adds to the revision (as a Java long) and returns the new revision. */
    method IncreaseRevision(value: int) returns (r: int)
      modifies this
      ensures r == Wrap(old(storeRevision) + value, 8)
      ensures Value() == old(Value()).(storeRevision := r)
    {
      storeRevision := Wrap(storeRevision + value, 8);
      r := storeRevision;
    }

    method IncreaseValuePostingsCount(value: int) returns (r: int)
      modifies this
      ensures r == Wrap(old(valuePostingsCount) + value, 8)
      ensures Value() == old(Value()).(valuePostingsCount := r)
    {
      valuePostingsCount := Wrap(valuePostingsCount + value, 8);
      r := valuePostingsCount;
    }

    method DecreaseValuePostingsCount(value: int) returns (r: int)
      modifies this
      ensures r == Wrap(old(valuePostingsCount) - value, 8)
      ensures Value() == old(Value()).(valuePostingsCount := r)
    {
      valuePostingsCount := Wrap(valuePostingsCount - value, 8);
      r := valuePostingsCount;
    }
  }

  /** Without overflow, increaseRevision adds exactly `value`, and increasing by 1 moves to a later revision. */
  lemma IncreaseRevisionAdds(revision: int, value: int)
    requires IsLong(revision + value)
    ensures Wrap(revision + value, 8) == revision + value
    ensures value > 0 ==> Wrap(revision + value, 8) > revision
  {
  }

  /** readHeader(header): seek to 0, then the seven fields in file order. */
  method ReadHeader(h: Header, raf: RandomAccessFile) returns (r: Outcome)
    modifies h, raf
    ensures raf.data == old(raf.data)
    ensures h.Value() == Decoded(old(h.Value()), raf.data)
    ensures r == if |raf.data| >= ENCODED_HEADER_SIZE then Pass else Fail(EndOfFile)
  {
    var _ := raf.Seek(0);
    ghost var v0 := h.Value();
    r := ReadLeadingFields(h, raf);
    if r.Fail? {
      assert raf.data[..|raf.data|] == raf.data;
      return;
    }
    ghost var v1 := h.Value();
    ghost var data := raf.data;
    assert data[..16][0..4] == data[0..4] && data[..16][4..12] == data[4..12] && data[..16][12..16] == data[12..16];
    r := ReadTrailingFields(h, raf);
  }

  /** The first three fields of readHeader, from offset 0: the version, the revision, the hashtable id. */
  method ReadLeadingFields(h: Header, raf: RandomAccessFile) returns (r: Outcome)
    requires raf.pos == 0
    modifies h, raf
    ensures raf.data == old(raf.data)
    ensures r == if |raf.data| >= 16 then Pass else Fail(EndOfFile)
    ensures r.Pass? ==> raf.pos == 16
    ensures h.Value() == Decoded(old(h.Value()), raf.data[..if |raf.data| < 16 then |raf.data| else 16])
  {
    ghost var v0, n, data := h.Value(), |raf.data|, raf.data;
    ghost var prefix := data[..if n < 16 then n else 16];
    var x := raf.ReadInt();
    if x.Err? {
      assert n < 4 && Decoded(v0, prefix) == v0;
      return Fail(x.error);
    }
    h.fileFormatVersion := x.value;
    assert prefix[0..4] == data[0..4];
    x := raf.ReadLong();
    if x.Err? {
      assert n < 12 && Decoded(v0, prefix) == h.Value();
      return Fail(x.error);
    }
    h.storeRevision := x.value;
    assert prefix[4..12] == data[4..12];
    x := raf.ReadInt();
    if x.Err? {
      assert n < 16 && Decoded(v0, prefix) == h.Value();
      return Fail(x.error);
    }
    h.currentHashtableId := x.value;
    assert prefix[0..4] == data[0..4] && prefix[4..12] == data[4..12] && prefix[12..16] == data[12..16];
    r := Pass;
  }

  /** The last four fields of readHeader, from offset 16: the three current partition ids and the count. */
  method ReadTrailingFields(h: Header, raf: RandomAccessFile) returns (r: Outcome)
    requires raf.pos == 16 && |raf.data| >= 16
    modifies h, raf
    ensures raf.data == old(raf.data)
    ensures r == if |raf.data| >= ENCODED_HEADER_SIZE then Pass else Fail(EndOfFile)
    ensures h.Value() == Decoded(old(h.Value()), raf.data).(fileFormatVersion := old(h.fileFormatVersion),
      storeRevision := old(h.storeRevision), currentHashtableId := old(h.currentHashtableId))
  {
    ghost var v0, n, data := h.Value(), |raf.data|, raf.data;
    var x := raf.ReadInt();
    if x.Err? {
      return Fail(x.error);
    }
    h.currentHashCodesPartition := x.value;
    x := raf.ReadInt();
    if x.Err? {
      return Fail(x.error);
    }
    h.currentKeysPartition := x.value;
    x := raf.ReadInt();
    if x.Err? {
      return Fail(x.error);
    }
    h.currentValuesPartition := x.value;
    x := raf.ReadLong();
    if x.Err? {
      return Fail(x.error);
    }
    h.valuePostingsCount := x.value;
    r := Pass;
  }

  /** writeHeader(header): seek to 0, then the seven fields in file order. */
  method WriteHeader(h: Header, raf: RandomAccessFile)
    modifies raf
    ensures raf.data == Overwrite(old(raf.data), 0, EncodeHeader(h.Value()))
  {
    var _ := raf.Seek(0);
    ghost var d0 := raf.data;
    raf.WriteInt(h.fileFormatVersion);
    ghost var p1 := raf.pos;
    raf.WriteLong(h.storeRevision);
    ghost var p2 := raf.pos;
    raf.WriteInt(h.currentHashtableId);
    ghost var p3 := raf.pos;
    raf.WriteInt(h.currentHashCodesPartition);
    ghost var p4 := raf.pos;
    raf.WriteInt(h.currentKeysPartition);
    ghost var p5 := raf.pos;
    raf.WriteInt(h.currentValuesPartition);
    ghost var p6 := raf.pos;
    raf.WriteLong(h.valuePostingsCount);
    HeaderWrittenInOrder(d0, h.Value(), p1, p2, p3, p4, p5, p6);
  }

  /** The seven field writes of writeHeader, one after the other from offset 0, write the encoded header. */
  lemma HeaderWrittenInOrder(data: seq<byte>, v: HeaderValue, p1: int, p2: int, p3: int, p4: int, p5: int, p6: int)
    requires p1 == 4 && p2 == 12 && p3 == 16 && p4 == 20 && p5 == 24 && p6 == 28
    ensures
      Overwrite(Overwrite(Overwrite(Overwrite(Overwrite(Overwrite(Overwrite(data,
        0, Encode(v.fileFormatVersion, 4)), p1, Encode(v.storeRevision, 8)), p2, Encode(v.currentHashtableId, 4)),
        p3, Encode(v.currentHashCodesPartition, 4)), p4, Encode(v.currentKeysPartition, 4)),
        p5, Encode(v.currentValuesPartition, 4)), p6, Encode(v.valuePostingsCount, 8))
      == Overwrite(data, 0, EncodeHeader(v))
  {
    var a, b, c, d, e, f, g := Encode(v.fileFormatVersion, 4), Encode(v.storeRevision, 8),
      Encode(v.currentHashtableId, 4), Encode(v.currentHashCodesPartition, 4),
      Encode(v.currentKeysPartition, 4), Encode(v.currentValuesPartition, 4), Encode(v.valuePostingsCount, 8);
    OverwriteAppendAt(data, 0, a, p1, b);
    OverwriteAppendAt(data, 0, a + b, p2, c);
    OverwriteAppendAt(data, 0, a + b + c, p3, d);
    OverwriteAppendAt(data, 0, a + b + c + d, p4, e);
    OverwriteAppendAt(data, 0, a + b + c + d + e, p5, f);
    OverwriteAppendAt(data, 0, a + b + c + d + e + f, p6, g);
  }

  /** The metadata file holds no postings: writePosting, readPosting and markPostingAsDeleted all refuse. */
  method PostingOperation() returns (r: Outcome)
    ensures r == Fail(UnsupportedOperation)
  {
    r := Fail(UnsupportedOperation);
  }
}
