/**
 * The slice of java.io.RandomAccessFile the file handlers use: a byte array
 * with a file pointer, big-endian primitive reads and writes, `read` into a
 * buffer, `skipBytes` and `seek`.
 */
module RandomAccess {
  import opened JavaInt
  import opened Wrappers

  function Zeros(n: nat): (z: seq<byte>)
    ensures |z| == n
    ensures forall i :: 0 <= i < n ==> z[i] == 0
  {
    if n == 0 then [] else Zeros(n - 1) + [0]
  }

  /**
   * The file contents after writing `bs` at `pos`: the file grows as needed and
   * a gap between the old end and `pos` reads as zero bytes.
   */
  function Overwrite(data: seq<byte>, pos: nat, bs: seq<byte>): (r: seq<byte>)
    ensures |r| == if pos + |bs| > |data| then pos + |bs| else |data|
    ensures forall i :: 0 <= i < |r| ==>
      r[i] == if pos <= i < pos + |bs| then bs[i - pos] else if i < |data| then data[i] else 0
  {
    var padded := if pos <= |data| then data else data + Zeros(pos - |data|);
    padded[..pos] + bs + (if pos + |bs| < |padded| then padded[pos + |bs|..] else [])
  }

  /** The written bytes read back, and every byte outside them keeps its value. */
  lemma OverwriteFrame(data: seq<byte>, pos: nat, bs: seq<byte>)
    ensures Overwrite(data, pos, bs)[pos..pos + |bs|] == bs
    ensures forall i :: 0 <= i < |data| && (i < pos || pos + |bs| <= i) ==> Overwrite(data, pos, bs)[i] == data[i]
  {
  }

  /** Two writes back to back are one write of both. */
  lemma OverwriteAppend(data: seq<byte>, pos: nat, a: seq<byte>, b: seq<byte>)
    ensures Overwrite(Overwrite(data, pos, a), pos + |a|, b) == Overwrite(data, pos, a + b)
  {
    var l := Overwrite(Overwrite(data, pos, a), pos + |a|, b);
    var r := Overwrite(data, pos, a + b);
    assert |l| == |r|;
    forall i | 0 <= i < |l| ensures l[i] == r[i] {
      if pos + |a| <= i < pos + |a| + |b| {
        assert (a + b)[i - pos] == b[i - pos - |a|];
      } else if pos <= i < pos + |a| {
        assert (a + b)[i - pos] == a[i - pos];
      }
    }
  }

  /** OverwriteAppend with the second write's position given as a number. */
  lemma OverwriteAppendAt(data: seq<byte>, pos: nat, a: seq<byte>, at: nat, b: seq<byte>)
    requires at == pos + |a|
    ensures Overwrite(Overwrite(data, pos, a), at, b) == Overwrite(data, pos, a + b)
  {
    OverwriteAppend(data, pos, a, b);
  }
  /** An overwrite that lies inside the file leaves its length unchanged. */
  lemma OverwriteInside(data: seq<byte>, pos: nat, bs: seq<byte>)
    requires pos + |bs| <= |data|
    ensures |Overwrite(data, pos, bs)| == |data|
  {
  }

  /** A slice of the written bytes reads back from the file. */
  lemma ReadBytes(data: seq<byte>, pos: nat, bs: seq<byte>, lo: nat, hi: nat)
    requires lo <= hi <= |bs|
    ensures Overwrite(data, pos, bs)[pos + lo..pos + hi] == bs[lo..hi]
  {
    var r := Overwrite(data, pos, bs);
    OverwriteFrame(data, pos, bs);
    assert r[pos + lo..pos + hi] == r[pos..pos + |bs|][lo..hi];
  }

  /** A slice of the file that the write does not touch keeps its bytes. */
  lemma OutsideBytes(data: seq<byte>, pos: nat, bs: seq<byte>, lo: nat, hi: nat)
    requires lo <= hi <= |data| && (hi <= pos || pos + |bs| <= lo)
    ensures Overwrite(data, pos, bs)[lo..hi] == data[lo..hi]
  {
    var r := Overwrite(data, pos, bs);
    forall i | lo <= i < hi
      ensures r[i] == data[i]
    {
    }
  }

  /** Two byte strings that agree on a range agree on every range inside it. */
  lemma SubSlice(x: seq<byte>, y: seq<byte>, lo: nat, hi: nat, a: nat, b: nat)
    requires lo <= a <= b <= hi <= |x| && hi <= |y| && x[lo..hi] == y[lo..hi]
    ensures x[a..b] == y[a..b]
  {
    forall i | a <= i < b
      ensures x[i] == y[i]
    {
      assert x[i] == x[lo..hi][i - lo];
      assert y[i] == y[lo..hi][i - lo];
    }
    assert x[a..b] == y[a..b];
  }

  /**
   * Two writes inside the file, of `a` at `pos` and of `b` at `at` further
   * on: each reads back, and the bytes between them are the old ones.
   */
  lemma TwoWrites(data: seq<byte>, pos: nat, a: seq<byte>, at: nat, b: seq<byte>)
    requires pos + |a| <= at && at + |b| <= |data|
    ensures var m := Overwrite(Overwrite(data, pos, a), at, b);
      |m| == |data|
      && m[pos..pos + |a|] == a && m[pos + |a|..at] == data[pos + |a|..at] && m[at..at + |b|] == b
  {
    var d1 := Overwrite(data, pos, a);
    OverwriteInside(data, pos, a);
    ReadBytes(data, pos, a, 0, |a|);
    OutsideBytes(d1, at, b, pos, pos + |a|);
    OutsideBytes(data, pos, a, pos + |a|, at);
    OutsideBytes(d1, at, b, pos + |a|, at);
    ReadBytes(d1, at, b, 0, |b|);
  }

  class RandomAccessFile {
    var data: seq<byte>
    /** The file pointer; `seek` refuses negative positions, so it is never negative. */
    var pos: nat

    constructor (contents: seq<byte>)
      ensures data == contents && pos == 0
    {
      data := contents;
      pos := 0;
    }

    method Seek(offset: int) returns (r: Outcome)
      modifies this
      ensures data == old(data)
      ensures offset < 0 ==> r.Fail? && r.error.IOError? && pos == old(pos)
      ensures offset >= 0 ==> r == Pass && pos == offset
    {
      if offset < 0 {
        r := Fail(IOError("negative seek offset"));
      } else {
        pos := offset;
        r := Pass;
      }
    }

    /** `write(b, 0, b.length)`. */
    method Write(bs: seq<byte>)
      modifies this
      ensures data == Overwrite(old(data), old(pos), bs)
      ensures pos == old(pos) + |bs|
    {
      data := Overwrite(data, pos, bs);
      pos := pos + |bs|;
    }

    method WriteByte(v: int)
      modifies this
      ensures data == Overwrite(old(data), old(pos), Encode(v, 1))
      ensures pos == old(pos) + 1
    {
      Write(Encode(v, 1));
    }

    method WriteInt(v: int)
      modifies this
      ensures data == Overwrite(old(data), old(pos), Encode(v, 4))
      ensures pos == old(pos) + 4
    {
      Write(Encode(v, 4));
    }

    method WriteLong(v: int)
      modifies this
      ensures data == Overwrite(old(data), old(pos), Encode(v, 8))
      ensures pos == old(pos) + 8
    {
      Write(Encode(v, 8));
    }

    /** `readFully`: exactly `n` bytes, or EOFException. */
    method ReadFully(n: nat) returns (r: Result<seq<byte>>)
      modifies this
      ensures data == old(data)
      ensures old(pos) + n <= |data| ==> r == Ok(data[old(pos)..old(pos) + n]) && pos == old(pos) + n
      ensures old(pos) + n > |data| ==> r == Err(EndOfFile)
    {
      if pos + n <= |data| {
        r := Ok(data[pos..pos + n]);
        pos := pos + n;
      } else {
        r := Err(EndOfFile);
      }
    }

    method ReadByte() returns (r: Result<int>)
      modifies this
      ensures data == old(data)
      ensures old(pos) + 1 <= |data| ==> r == Ok(Decode(data[old(pos)..old(pos) + 1])) && pos == old(pos) + 1
      ensures old(pos) + 1 > |data| ==> r == Err(EndOfFile)
    {
      var bs := ReadFully(1);
      r := if bs.Ok? then Ok(Decode(bs.value)) else Err(bs.error);
    }

    method ReadInt() returns (r: Result<int>)
      modifies this
      ensures data == old(data)
      ensures old(pos) + 4 <= |data| ==> r == Ok(Decode(data[old(pos)..old(pos) + 4])) && pos == old(pos) + 4
      ensures old(pos) + 4 > |data| ==> r == Err(EndOfFile)
    {
      var bs := ReadFully(4);
      r := if bs.Ok? then Ok(Decode(bs.value)) else Err(bs.error);
    }

    method ReadLong() returns (r: Result<int>)
      modifies this
      ensures data == old(data)
      ensures old(pos) + 8 <= |data| ==> r == Ok(Decode(data[old(pos)..old(pos) + 8])) && pos == old(pos) + 8
      ensures old(pos) + 8 > |data| ==> r == Err(EndOfFile)
    {
      var bs := ReadFully(8);
      r := if bs.Ok? then Ok(Decode(bs.value)) else Err(bs.error);
    }

    /**
     * `read(b, 0, n)` for n > 0: the number of bytes read, which is short when
     * the file ends first, or -1 when the pointer is already at the end.
     */
    method Read(n: int) returns (count: int, bs: seq<byte>)
      requires n > 0
      modifies this
      ensures data == old(data)
      ensures old(pos) >= |data| ==> count == -1 && bs == [] && pos == old(pos)
      ensures old(pos) < |data| ==>
        count == (if old(pos) + n <= |data| then n else |data| - old(pos)) &&
        bs == data[old(pos)..old(pos) + count] && pos == old(pos) + count
    {
      if pos >= |data| {
        count, bs := -1, [];
      } else {
        count := if pos + n <= |data| then n else |data| - pos;
        bs := data[pos..pos + count];
        pos := pos + count;
      }
    }

    /** `skipBytes(n)`: moves the pointer to min(pos + n, length) and returns the distance moved. */
    method SkipBytes(n: int) returns (skipped: int)
      modifies this
      ensures data == old(data)
      ensures n <= 0 ==> skipped == 0 && pos == old(pos)
      ensures n > 0 ==> pos == (if old(pos) + n <= |data| then old(pos) + n else |data|)
      ensures skipped == pos - old(pos)
    {
      if n <= 0 {
        skipped := 0;
      } else {
        var newPos := if pos + n <= |data| then pos + n else |data|;
        skipped := newPos - pos;
        pos := newPos;
      }
    }
  }
}
