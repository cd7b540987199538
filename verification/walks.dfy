/**
 * The chain walks the store operations share: along the hash-code postings
 * of a bucket to the one for a hash code, along the key postings of a hash
 * code to the one for a key, and along a key chain to its last posting.
 * Each step follows the posting's next pointer, opening the next partition
 * when the chain leaves the current one. A chain on disk may be cyclic, so
 * each walk is given a bound on its steps: running out of it is `Diverges`,
 * which stands for a walk that never ends.
 */
module StoreWalks {
  import opened Wrappers
  import opened JavaInt
  import opened Postings
  import opened StoreFiles
  import FileHandler

  /** A posting together with where it was read: its partition id and byte offset. */
  datatype HashCursor = HashCursor(partition: int, offset: int, posting: HashCodePosting)
  datatype KeyCursor = KeyCursor(partition: int, offset: int, posting: KeyPosting)

  /**
   * How a hash-code walk recognises its posting. get and put ask first for
   * the posting to be in use at the revision, then for the hash code;
   * containsKey asks for the hash code first and checks the flag only then;
   * remove and rehash compare hash codes only.
   */
  datatype HashMatch = VisibleWithHash | HashWithVisible | HashOnly

  function HashMatches(mode: HashMatch, hashCode: int, revision: int, p: HashCodePosting): (r: Result<bool>)
    ensures r.Ok? ==>
      (r.value <==>
         p.keyHashCode == hashCode
         && (mode == HashOnly || HashCodeFlag(p, revision) == Ok(FileHandler.FLAG_IN_USE)))
    ensures r.Err? <==>
      HashCodeFlag(p, revision).Err?
      && (mode == VisibleWithHash || (mode == HashWithVisible && p.keyHashCode == hashCode))
  {
    match mode
    case VisibleWithHash =>
      var f :- HashCodeFlag(p, revision);
      Ok(f == FileHandler.FLAG_IN_USE && p.keyHashCode == hashCode)
    case HashWithVisible =>
      if p.keyHashCode != hashCode then Ok(false)
      else
        var f :- HashCodeFlag(p, revision);
        Ok(f == FileHandler.FLAG_IN_USE)
    case HashOnly =>
      Ok(p.keyHashCode == hashCode)
  }

  /**
   * How a key walk recognises its posting: in use at the revision with the
   * same bytes; containsKey also asks for the posting to have been created
   * no later than the revision.
   */
  datatype KeyMatch = KeyVisible | KeyVisibleCreated

  function KeyMatches(mode: KeyMatch, key: seq<byte>, revision: int, p: KeyPosting): (r: Result<bool>)
    ensures r.Err? <==> KeyFlag(p, revision).Err?
    ensures r.Ok? ==>
      (r.value <==>
         KeyFlag(p, revision) == Ok(FileHandler.FLAG_IN_USE) && p.bytes == key
         && (mode == KeyVisible || p.createdRevision <= revision))
  {
    var f :- KeyFlag(p, revision);
    Ok(f == FileHandler.FLAG_IN_USE && (mode == KeyVisible || p.createdRevision <= revision) && key == p.bytes)
  }

  /**
   * The extra created-revision check of containsKey never changes the
   * answer: a posting in use at a revision was created no later than it.
   */
  lemma CreatedCheckRedundant(key: seq<byte>, revision: int, p: KeyPosting)
    ensures KeyMatches(KeyVisibleCreated, key, revision, p) == KeyMatches(KeyVisible, key, revision, p)
  {
    var f := KeyFlag(p, revision);
    if f == Ok(FileHandler.FLAG_IN_USE) {
      FileHandler.VisibleInterval(p.flag, p.createdRevision, p.deletedRevision, revision);
    }
  }

  /**
   * Where a hash-code posting matches without error in get's order, it
   * matches the same way in containsKey's order.
   */
  lemma HashOrdersAgree(hashCode: int, revision: int, p: HashCodePosting)
    requires HashMatches(VisibleWithHash, hashCode, revision, p).Ok?
    ensures HashMatches(HashWithVisible, hashCode, revision, p) == HashMatches(VisibleWithHash, hashCode, revision, p)
  {
  }

  /** Nothing but partitions opened: every file that existed is as it was, and nothing else changed. */
  predicate OnlyOpened(d: Disk, d': Disk)
  {
    d'.md == d.md && d'.tables == d.tables
    && d.hashCodes.Keys <= d'.hashCodes.Keys && d.keys.Keys <= d'.keys.Keys && d.values.Keys <= d'.values.Keys
    && (forall q :: q in d.hashCodes ==> d'.hashCodes[q] == d.hashCodes[q])
    && (forall q :: q in d.keys ==> d'.keys[q] == d.keys[q])
    && (forall q :: q in d.values ==> d'.values[q] == d.values[q])
  }

  lemma OnlyOpenedTransitive(d: Disk, d': Disk, d'': Disk)
    requires OnlyOpened(d, d') && OnlyOpened(d', d'')
    ensures OnlyOpened(d, d'')
  {
  }

  /** Where a hash-code walk stops: at the matching posting, or at the last posting of the chain. */
  datatype HashStop = HashStop(found: bool, at: HashCursor)

  /**
   * The hash-code loop of get, put, containsKey and remove (and of rehash on
   * the new partition), from posting `at`: it stops at the first posting
   * that matches, or at the last one, and reads no posting twice in a row.
   */
  function HashWalk(d: Disk, c: Config, mode: HashMatch, hashCode: int, revision: int, at: HashCursor, fuel: nat): (s: Step<HashStop>)
    ensures OnlyOpened(d, s.disk) && s.disk.keys == d.keys && s.disk.values == d.values
    ensures s.result.Ok? && s.result.value.found ==>
      HashMatches(mode, hashCode, revision, s.result.value.at.posting) == Ok(true)
    ensures s.result.Ok? && !s.result.value.found ==>
      s.result.value.at.posting.nextPartition < 0
      && HashMatches(mode, hashCode, revision, s.result.value.at.posting) == Ok(false)
    decreases fuel
  {
    var m :- Step(HashMatches(mode, hashCode, revision, at.posting), d);
    if m.0 then Step(Ok(HashStop(true, at)), d)
    else if at.posting.nextPartition < 0 then Step(Ok(HashStop(false, at)), d)
    else if fuel == 0 then Step(Err(Diverges), d)
    else
      var next := at.posting.nextPartition;
      var d1 := if next != at.partition then HashCodesOpened(d, c, next) else d;
      var p :- Step(HashCodeAt(d1, next, at.posting.nextOffset), d1);
      HashWalk(d1, c, mode, hashCode, revision, HashCursor(next, at.posting.nextOffset, p.0), fuel - 1)
  }

  /** A walk that ends within its bound ends the same way with any larger bound. */
  lemma {:induction false} HashWalkFuel(d: Disk, c: Config, mode: HashMatch, hashCode: int, revision: int, at: HashCursor, fuel: nat, more: nat)
    requires HashWalk(d, c, mode, hashCode, revision, at, fuel).result != Err(Diverges)
    requires fuel <= more
    ensures HashWalk(d, c, mode, hashCode, revision, at, more) == HashWalk(d, c, mode, hashCode, revision, at, fuel)
    decreases fuel
  {
    var m := HashMatches(mode, hashCode, revision, at.posting);
    if m.Ok? && !m.value && at.posting.nextPartition >= 0 && fuel > 0 {
      var next := at.posting.nextPartition;
      var d1 := if next != at.partition then HashCodesOpened(d, c, next) else d;
      var p := HashCodeAt(d1, next, at.posting.nextOffset);
      if p.Ok? {
        HashWalkFuel(d1, c, mode, hashCode, revision, HashCursor(next, at.posting.nextOffset, p.value), fuel - 1, more - 1);
      }
    }
  }

  /**
   * A walk in containsKey's order reaches the same posting as one in get's
   * order that ends without error.
   */
  lemma {:induction false} HashWalkOrdersAgree(d: Disk, c: Config, hashCode: int, revision: int, at: HashCursor, fuel: nat)
    requires HashWalk(d, c, VisibleWithHash, hashCode, revision, at, fuel).result.Ok?
    ensures HashWalk(d, c, HashWithVisible, hashCode, revision, at, fuel) == HashWalk(d, c, VisibleWithHash, hashCode, revision, at, fuel)
    decreases fuel
  {
    HashOrdersAgree(hashCode, revision, at.posting);
    var m := HashMatches(VisibleWithHash, hashCode, revision, at.posting);
    if !m.value && at.posting.nextPartition >= 0 && fuel > 0 {
      var next := at.posting.nextPartition;
      var d1 := if next != at.partition then HashCodesOpened(d, c, next) else d;
      var p := HashCodeAt(d1, next, at.posting.nextOffset);
      if p.Ok? {
        HashWalkOrdersAgree(d1, c, hashCode, revision, HashCursor(next, at.posting.nextOffset, p.value), fuel - 1);
      }
    }
  }

  /**
   * Where a key walk stops: at the matching posting or the last one, with
   * the posting visited before it, if any.
   */
  datatype KeyStop = KeyStop(found: bool, at: KeyCursor, previous: Option<KeyCursor>)

  /**
   * The posting remembered as previous links to the one reached, and carries
   * that one's partition id.
   */
  predicate RecordedBefore(prev: KeyCursor, here: KeyCursor)
  {
    prev.partition == here.partition
    && prev.posting.nextPartition == here.partition && prev.posting.nextOffset == here.offset
  }

  /** A key walk from `at` either stopped there or remembers the posting before the one it stopped at. */
  predicate StoppedAfter(stop: KeyStop, at: KeyCursor, previous: Option<KeyCursor>)
  {
    (stop.at == at && stop.previous == previous)
    || (stop.previous.Some? && RecordedBefore(stop.previous.value, stop.at))
  }

  /**
   * The key loop of get, put, containsKey and remove, from posting `at`.
   * The posting before the one reached is remembered with the partition id
   * of the posting it precedes, not its own: the loop switches partitions
   * before it records it.
   */
  function KeyWalk(d: Disk, c: Config, mode: KeyMatch, key: seq<byte>, revision: int, at: KeyCursor, previous: Option<KeyCursor>, fuel: nat): (s: Step<KeyStop>)
    ensures OnlyOpened(d, s.disk)
    ensures s.result.Ok? && s.result.value.found ==>
      KeyMatches(mode, key, revision, s.result.value.at.posting) == Ok(true)
    ensures s.result.Ok? && !s.result.value.found ==>
      s.result.value.at.posting.nextPartition < 0
      && KeyMatches(mode, key, revision, s.result.value.at.posting) == Ok(false)
    ensures s.result.Ok? ==> StoppedAfter(s.result.value, at, previous)
    decreases fuel
  {
    var m :- Step(KeyMatches(mode, key, revision, at.posting), d);
    if m.0 then Step(Ok(KeyStop(true, at, previous)), d)
    else if at.posting.nextPartition < 0 then Step(Ok(KeyStop(false, at, previous)), d)
    else if fuel == 0 then Step(Err(Diverges), d)
    else
      var next := at.posting.nextPartition;
      var d1 := if next != at.partition then KeysOpened(d, c, next) else d;
      var p :- Step(KeyAt(d1, next, at.posting.nextOffset), d1);
      KeyWalk(d1, c, mode, key, revision, KeyCursor(next, at.posting.nextOffset, p.0),
        Some(KeyCursor(next, at.offset, at.posting)), fuel - 1)
  }

  lemma {:induction false} KeyWalkFuel(d: Disk, c: Config, mode: KeyMatch, key: seq<byte>, revision: int, at: KeyCursor, previous: Option<KeyCursor>, fuel: nat, more: nat)
    requires KeyWalk(d, c, mode, key, revision, at, previous, fuel).result != Err(Diverges)
    requires fuel <= more
    ensures KeyWalk(d, c, mode, key, revision, at, previous, more) == KeyWalk(d, c, mode, key, revision, at, previous, fuel)
    decreases fuel
  {
    var m := KeyMatches(mode, key, revision, at.posting);
    if m.Ok? && !m.value && at.posting.nextPartition >= 0 && fuel > 0 {
      var next := at.posting.nextPartition;
      var d1 := if next != at.partition then KeysOpened(d, c, next) else d;
      var p := KeyAt(d1, next, at.posting.nextOffset);
      if p.Ok? {
        KeyWalkFuel(d1, c, mode, key, revision, KeyCursor(next, at.posting.nextOffset, p.value),
          Some(KeyCursor(next, at.offset, at.posting)), fuel - 1, more - 1);
      }
    }
  }

  /** containsKey's key walk ends exactly as get's does. */
  lemma {:induction false} KeyWalkModesAgree(d: Disk, c: Config, key: seq<byte>, revision: int, at: KeyCursor, previous: Option<KeyCursor>, fuel: nat)
    ensures KeyWalk(d, c, KeyVisibleCreated, key, revision, at, previous, fuel) == KeyWalk(d, c, KeyVisible, key, revision, at, previous, fuel)
    decreases fuel
  {
    CreatedCheckRedundant(key, revision, at.posting);
    var m := KeyMatches(KeyVisible, key, revision, at.posting);
    if m.Ok? && !m.value && at.posting.nextPartition >= 0 && fuel > 0 {
      var next := at.posting.nextPartition;
      var d1 := if next != at.partition then KeysOpened(d, c, next) else d;
      var p := KeyAt(d1, next, at.posting.nextOffset);
      if p.Ok? {
        KeyWalkModesAgree(d1, c, key, revision, KeyCursor(next, at.posting.nextOffset, p.value),
          Some(KeyCursor(next, at.offset, at.posting)), fuel - 1);
      }
    }
  }

  /**
   * The loop of a durable remove that finds the last posting of a key chain,
   * starting with the posting at (`partition`, `offset`) itself; each
   * partition on the way is asked for with createNew true.
   */
  function LastKeyWalk(d: Disk, c: Config, partition: int, offset: int, fuel: nat): (s: Step<KeyCursor>)
    ensures OnlyOpened(d, s.disk)
    ensures s.result.Ok? ==>
      s.result.value.posting.nextPartition < 0
      && s.result.value.partition in s.disk.keys
      && KeyAt(s.disk, s.result.value.partition, s.result.value.offset) == Ok(s.result.value.posting)
    decreases fuel
  {
    var d1 := KeysOpened(d, c, partition);
    var p :- Step(KeyAt(d1, partition, offset), d1);
    if p.0.nextPartition < 0 then Step(Ok(KeyCursor(partition, offset, p.0)), d1)
    else if fuel == 0 then Step(Err(Diverges), d1)
    else LastKeyWalk(d1, c, p.0.nextPartition, p.0.nextOffset, fuel - 1)
  }

  /** The walk only opens key partitions, and fails only as a read or an unbounded chain does, never with NoSuchElement. */
  lemma {:induction false} LastKeyWalkOpensOnlyKeys(d: Disk, c: Config, partition: int, offset: int, fuel: nat)
    ensures var s := LastKeyWalk(d, c, partition, offset, fuel);
      s.disk.hashCodes == d.hashCodes && s.disk.values == d.values
      && (s.result.Err? ==> s.result.error != NoSuchElement)
    decreases fuel
  {
    var d1 := KeysOpened(d, c, partition);
    var p := KeyAt(d1, partition, offset);
    if p.Ok? && p.value.nextPartition >= 0 && fuel > 0 {
      LastKeyWalkOpensOnlyKeys(d1, c, p.value.nextPartition, p.value.nextOffset, fuel - 1);
    }
  }

  lemma {:induction false} LastKeyWalkFuel(d: Disk, c: Config, partition: int, offset: int, fuel: nat, more: nat)
    requires LastKeyWalk(d, c, partition, offset, fuel).result != Err(Diverges)
    requires fuel <= more
    ensures LastKeyWalk(d, c, partition, offset, more) == LastKeyWalk(d, c, partition, offset, fuel)
    decreases fuel
  {
    var d1 := KeysOpened(d, c, partition);
    var p := KeyAt(d1, partition, offset);
    if p.Ok? && p.value.nextPartition >= 0 && fuel > 0 {
      LastKeyWalkFuel(d1, c, p.value.nextPartition, p.value.nextOffset, fuel - 1, more - 1);
    }
  }
}
