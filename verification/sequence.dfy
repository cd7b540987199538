/**
 * File-backed long sequences: each sequence keeps its next free value as a
 * long at offset 0 of its own file, and `reserve(n)` hands out a range
 * starting at that value while advancing it by n. The manager registers
 * sequences by name, lazily.
 */
module Sequences {
  import opened JavaInt
  import opened Wrappers
  import opened RandomAccess

  /** The value type a sequence is requested for: only Long is supported. */
  datatype ValueType = LongType | OtherType(typeName: string)

  /** A new sequence file: initializeHeader writes the long 1 at offset 0. */
  function InitialFile(): (bs: seq<byte>)
    ensures |bs| == 8 && Decode(bs) == 1
  {
    DecodeEncode(1, 8);
    assert Overwrite([], 0, Encode(1, 8)) == Encode(1, 8);
    Overwrite([], 0, Encode(1, 8))
  }

  // ---------------------------------------------------------------------
  // Handing out the values of a range

  /**
   * One call of LongRange.nextValue from next free value `next`: the value
   * and the new next free value, or NoSuchElement once hasNextValue
   * (`next <= end`) fails. The counter is an AtomicLong, so it wraps.
   */
  function NextValueStep(next: int, end: int): (r: (Result<int>, int))
    ensures r.0.Ok? <==> next <= end
    ensures r.0.Ok? ==> r.0.value == next && r.1 == Wrap(next + 1, 8)
    ensures r.0.Err? ==> r.0.error == NoSuchElement && r.1 == next
  {
    if next <= end then (Ok(next), Wrap(next + 1, 8)) else (Err(NoSuchElement), next)
  }

  /** The results of `k` successive nextValue calls on a range whose next free value is `next`. */
  function Drain(next: int, end: int, k: nat): (rs: seq<Result<int>>)
    ensures |rs| == k
    decreases k
  {
    if k == 0 then [] else var step := NextValueStep(next, end); [step.0] + Drain(step.1, end, k - 1)
  }

  /**
   * The range reserve(n) returns for stored value s, start s and end s + n,
   * yields n + 1 values, s to s + n inclusive: one more than reserved. Its
   * last value s + n is the value the file now stores, the first value of
   * the next reservation, so that value is handed out twice.
   */
  lemma InclusiveRangeOverlapsNext(s: int, n: nat)
    requires IsLong(s) && IsLong(s + n + 1)
    ensures Drain(s, s + n, n + 2) == seq(n + 1, i requires 0 <= i < n + 1 => Ok(s + i)) + [Err(NoSuchElement)]
  {
    DrainFrom(s, s + n, n + 1);
  }

  /** The values from `v` on: v, then the values from v + 1 on. */
  lemma ConsRange(v: int, m: nat)
    ensures [Ok(v)] + seq(m, i requires 0 <= i < m => Ok(v + 1 + i)) == seq(m + 1, i requires 0 <= i < m + 1 => Ok(v + i))
  {
    var a := [Ok(v)] + seq(m, i requires 0 <= i < m => Ok(v + 1 + i));
    var b := seq(m + 1, i requires 0 <= i < m + 1 => Ok(v + i));
    forall i | 0 <= i < m + 1
      ensures a[i] == b[i]
    {
      if i > 0 {
        assert a[i] == Ok(v + 1 + (i - 1));
      }
    }
  }

  /** A drain that finds `v` available hands it out and goes on from v + 1. */
  lemma DrainCons(v: int, end: int, m: nat, tail: seq<Result<int>>)
    requires IsLong(v + 1) && v <= end
    requires Drain(v + 1, end, m) == tail + [Err(NoSuchElement)]
    ensures Drain(v, end, m + 1) == ([Ok(v)] + tail) + [Err(NoSuchElement)]
  {
    assert Drain(v, end, m + 1) == [Ok(v)] + Drain(v + 1, end, m);
  }

  /** Draining a range from its next free value `v` on yields the m values v to `end`, then NoSuchElement. */
  lemma {:induction false} DrainFrom(v: int, end: int, m: nat)
    requires IsLong(v) && IsLong(end + 1) && v <= end + 1
    requires m == end + 1 - v
    ensures Drain(v, end, m + 1) == seq(m, i requires 0 <= i < m => Ok(v + i)) + [Err(NoSuchElement)]
    decreases m
  {
    if v <= end {
      LongBetween(v, v + 1, end + 1);
      DrainFrom(v + 1, end, m - 1);
      DrainCons(v, end, m, seq(m - 1, i requires 0 <= i < m - 1 => Ok(v + 1 + i)));
      ConsRange(v, m - 1);
    } else {
      assert Drain(v, end, 1) == [Err(NoSuchElement)];
    }
  }

  /**
   * nextValue with the end exclusive, as a range of `size()` values needs:
   * hasNextValue is `next < end`.
   */
  function ExclusiveNextValueStep(next: int, end: int): (r: (Result<int>, int))
    ensures r.0.Ok? <==> next < end
    ensures r.0.Ok? ==> r.0.value == next && r.1 == Wrap(next + 1, 8)
    ensures r.0.Err? ==> r.0.error == NoSuchElement && r.1 == next
  {
    if next < end then (Ok(next), Wrap(next + 1, 8)) else (Err(NoSuchElement), next)
  }

  function ExclusiveDrain(next: int, end: int, k: nat): (rs: seq<Result<int>>)
    ensures |rs| == k
    decreases k
  {
    if k == 0 then [] else var step := ExclusiveNextValueStep(next, end); [step.0] + ExclusiveDrain(step.1, end, k - 1)
  }

  /**
   * With the end exclusive, the range reserve(n) returns yields exactly the
   * n values s to s + n - 1, all below the next reservation's first value.
   */
  lemma ExclusiveRangeYieldsReserved(s: int, n: nat)
    requires IsLong(s) && IsLong(s + n)
    ensures ExclusiveDrain(s, s + n, n + 1) == seq(n, i requires 0 <= i < n => Ok(s + i)) + [Err(NoSuchElement)]
  {
    ExclusiveDrainFrom(s, s + n, n);
  }

  /** An exclusive drain that finds `v` available hands it out and goes on from v + 1. */
  lemma ExclusiveDrainCons(v: int, end: int, m: nat, tail: seq<Result<int>>)
    requires IsLong(v + 1) && v < end
    requires ExclusiveDrain(v + 1, end, m) == tail + [Err(NoSuchElement)]
    ensures ExclusiveDrain(v, end, m + 1) == ([Ok(v)] + tail) + [Err(NoSuchElement)]
  {
    assert ExclusiveDrain(v, end, m + 1) == [Ok(v)] + ExclusiveDrain(v + 1, end, m);
  }

  /** Draining an exclusive range from its next free value `v` on yields the m values v to `end` - 1, then NoSuchElement. */
  lemma {:induction false} ExclusiveDrainFrom(v: int, end: int, m: nat)
    requires IsLong(v) && IsLong(end) && v <= end
    requires m == end - v
    ensures ExclusiveDrain(v, end, m + 1) == seq(m, i requires 0 <= i < m => Ok(v + i)) + [Err(NoSuchElement)]
    decreases m
  {
    if v < end {
      LongBetween(v, v + 1, end);
      ExclusiveDrainFrom(v + 1, end, m - 1);
      ExclusiveDrainCons(v, end, m, seq(m - 1, i requires 0 <= i < m - 1 => Ok(v + 1 + i)));
      ConsRange(v, m - 1);
    } else {
      assert ExclusiveDrain(v, end, 1) == [Err(NoSuchElement)];
    }
  }

  // ---------------------------------------------------------------------
  // Ranges and sequences

  class LongRange {
    const start: int
    const end: int
    var nextValue: int

    constructor (start: int, end: int)
      ensures this.start == start && this.end == end && nextValue == start
    {
      this.start := start;
      this.end := end;
      nextValue := start;
    }

    /**
     * size(): `(int) (end - start)`, the long difference narrowed to an int,
     * which is the number of values reserved when it fits an int.
     */
    function Size(): (r: int)
      ensures IsInt(r)
      ensures IsInt(end - start) ==> r == end - start
    {
      Pow256Values();
      Wrap(Wrap(end - start, 8), 4)
    }

    function HasNextValue(): bool
      reads this
    {
      nextValue <= end
    }

    /** nextValue(): the next value, or NoSuchElement past the end. */
    method NextValue() returns (r: Result<int>)
      modifies this
      ensures (r, nextValue) == NextValueStep(old(nextValue), end)
      ensures r.Ok? <==> old(HasNextValue())
    {
      if !HasNextValue() {
        return Err(NoSuchElement);
      }
      r := Ok(nextValue);
      nextValue := Wrap(nextValue + 1, 8);
    }
  }

  /** A long written at offset 0 of a file of at least 8 bytes reads back wrapped, and the file keeps its length. */
  lemma StoredLong(data: seq<byte>, v: int)
    requires |data| >= 8
    ensures |Overwrite(data, 0, Encode(v, 8))| == |data|
    ensures Decode(Overwrite(data, 0, Encode(v, 8))[0..8]) == Wrap(v, 8)
  {
    OverwriteFrame(data, 0, Encode(v, 8));
    DecodeEncodeWraps(v, 8);
  }

  class LongSequence {
    const name: string
    /** The file `name + ".seq"`. */
    const raf: RandomAccessFile

    /**
     * Opens the sequence file, creating it with the value 1 when it does not
     * exist. `existing` is the file's contents if it exists.
     */
    constructor (name: string, existing: Option<seq<byte>>)
      ensures this.name == name && fresh(raf)
      ensures raf.data == if existing.Some? then existing.value else InitialFile()
    {
      this.name := name;
      var contents := if existing.Some? then existing.value else [];
      var file := new RandomAccessFile(contents);
      if existing.None? {
        var _ := file.Seek(0);
        file.WriteLong(1);
      }
      raf := file;
    }

    /**
     * reserve(requestedSize): reads the stored next value, stores it plus
     * requestedSize, and returns the range from the old to the new value.
     */
    method Reserve(requestedSize: int) returns (r: Result<LongRange>)
      modifies raf
      ensures |old(raf.data)| < 8 ==> r == Err(EndOfFile) && raf.data == old(raf.data)
      ensures |old(raf.data)| >= 8 ==>
        var s := Decode(old(raf.data)[0..8]);
        r.Ok? && fresh(r.value) && r.value.start == s && r.value.nextValue == s
        && r.value.end == Wrap(s + requestedSize, 8)
        && raf.data == Overwrite(old(raf.data), 0, Encode(s + requestedSize, 8))
        && |raf.data| == |old(raf.data)|
        && Decode(raf.data[0..8]) == Wrap(s + requestedSize, 8)
    {
      ghost var d0 := raf.data;
      var _ := raf.Seek(0);
      var next := raf.ReadLong();
      if next.Err? {
        return Err(next.error);
      }
      var s := next.value;
      var _ := raf.Seek(0);
      raf.WriteLong(s + requestedSize);
      StoredLong(d0, s + requestedSize);
      var start := s;
      var range := new LongRange(start, Wrap(start + requestedSize, 8));
      r := Ok(range);
    }
  }

  class FilebasedSequenceManager {
    var sequences: map<string, LongSequence>

    constructor ()
      ensures sequences == map[]
    {
      sequences := map[];
    }

    /** sequenceFactory: a LongSequence for the Long type, UnsupportedOperation for any other. */
    method SequenceFactory(valueType: ValueType, name: string, existing: Option<seq<byte>>)
      returns (r: Result<LongSequence>)
      ensures valueType == LongType ==>
        r.Ok? && fresh(r.value) && fresh(r.value.raf) && r.value.name == name
        && r.value.raf.data == if existing.Some? then existing.value else InitialFile()
      ensures valueType != LongType ==> r == Err(UnsupportedOperation)
    {
      if valueType == LongType {
        var sq := new LongSequence(name, existing);
        r := Ok(sq);
      } else {
        r := Err(UnsupportedOperation);
      }
    }

    /**
     * getOrRegisterSequence: the registered sequence of that name, whatever
     * type is asked for; otherwise a new one from sequenceFactory, registered
     * under the name.
     */
    method GetOrRegisterSequence(valueType: ValueType, name: string, existing: Option<seq<byte>>)
      returns (r: Result<LongSequence>)
      modifies this
      ensures name in old(sequences) ==> r == Ok(old(sequences)[name]) && sequences == old(sequences)
      ensures name !in old(sequences) && valueType == LongType ==>
        r.Ok? && fresh(r.value) && r.value.name == name && sequences == old(sequences)[name := r.value]
        && r.value.raf.data == if existing.Some? then existing.value else InitialFile()
      ensures name !in old(sequences) && valueType != LongType ==>
        r == Err(UnsupportedOperation) && sequences == old(sequences)
    {
      if name in sequences {
        return Ok(sequences[name]);
      }
      r := SequenceFactory(valueType, name, existing);
      if r.Ok? {
        sequences := sequences[name := r.value];
      }
    }

    /** reserve(name, n): the registered sequence's reservation; a name never registered dereferences null. */
    method Reserve(name: string, requestedSize: int) returns (r: Result<LongRange>)
      modifies if name in sequences then {sequences[name].raf} else {}
      ensures name !in sequences ==> r == Err(NullPointer)
      ensures name in sequences && |old(sequences[name].raf.data)| >= 8 ==>
        r.Ok? && r.value.start == Decode(old(sequences[name].raf.data)[0..8])
        && |sequences[name].raf.data| == |old(sequences[name].raf.data)|
        && Decode(sequences[name].raf.data[0..8]) == Wrap(r.value.start + requestedSize, 8)
      ensures name in sequences && |old(sequences[name].raf.data)| < 8 ==> r == Err(EndOfFile)
    {
      if name !in sequences {
        return Err(NullPointer);
      }
      r := sequences[name].Reserve(requestedSize);
    }
  }
}
