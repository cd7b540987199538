/**
 * What each store operation does to the store's files, as functions from
 * the files before to the result and the files after: get, containsKey,
 * put, remove, the keys cursor, and rehash. Each reads and writes the same
 * postings, in the same order, as the operation it is named after; an
 * exception leaves the files as the writes before it left them.
 */
module StoreSpec {
  import opened Wrappers
  import opened JavaInt
  import opened Postings
  import opened StoreFiles
  import opened StoreWalks
  import FileHandler
  import Hashtable
  import ValuesPartition

  // ---------------------------------------------------------------------
  // Shared steps

  /** validateKey: a null or empty key is refused before anything is read. */
  function ValidKey(key: seq<byte>): (r: Result<()>)
    ensures r.Ok? <==> |key| > 0
    ensures r.Err? ==> r.error.IllegalArgument?
  {
    if |key| == 0 then Err(IllegalArgument("Null key is not allowed")) else Ok(())
  }

  /** A hashtable bucket: the generation it was read from, its offset in that file, and its posting. */
  datatype Bucket = Bucket(tableId: int, offset: int, posting: Hashtable.Posting)

  /** The bucket posting of a hash code in the hashtable generation the metadata names. */
  function BucketOf(d: Disk, hashCode: int): (r: Result<Bucket>)
    ensures r.Ok? ==>
      r.value.tableId == d.md.currentHashtableId && r.value.tableId in d.tables
      && r.value.offset == Hashtable.SlotOffset(hashCode, d.tables[r.value.tableId].capacity)
      && SlotAt(d.tables[r.value.tableId], r.value.offset) == Ok(r.value.posting)
  {
    var t :- CurrentTable(d);
    var off := Hashtable.SlotOffset(hashCode, t.capacity);
    var slot :- SlotAt(t, off);
    Ok(Bucket(d.md.currentHashtableId, off, slot))
  }

  /** The first hash-code posting a bucket points at, its partition opened first. */
  function FirstHashCode(d: Disk, c: Config, slot: Hashtable.Posting): (s: Step<HashCursor>)
    ensures OnlyOpened(d, s.disk)
    ensures s.result.Ok? ==>
      s.result.value.partition == slot.hashCodePostingPartition
      && s.result.value.offset == slot.hashCodePostingPartitionOffset
  {
    var d1 := HashCodesOpened(d, c, slot.hashCodePostingPartition);
    var p :- Step(HashCodeAt(d1, slot.hashCodePostingPartition, slot.hashCodePostingPartitionOffset), d1);
    Step(Ok(HashCursor(slot.hashCodePostingPartition, slot.hashCodePostingPartitionOffset, p.0)), d1)
  }

  /** The first key posting of a hash-code posting, its partition opened (with createNew) first. */
  function FirstKey(d: Disk, c: Config, h: HashCodePosting): (s: Step<KeyCursor>)
    ensures OnlyOpened(d, s.disk)
    ensures s.result.Ok? ==> s.result.value.partition == h.firstKeyPartition && s.result.value.offset == h.firstKeyOffset
  {
    var d1 := KeysOpened(d, c, h.firstKeyPartition);
    var p :- Step(KeyAt(d1, h.firstKeyPartition, h.firstKeyOffset), d1);
    Step(Ok(KeyCursor(h.firstKeyPartition, h.firstKeyOffset, p.0)), d1)
  }

  /** The value posting a key posting points at, its partition opened first. */
  function ValueOf(d: Disk, c: Config, k: KeyPosting): (s: Step<ValuesPartition.Posting>)
    ensures OnlyOpened(d, s.disk)
    ensures s.result.Err? <==> k.valueOffset < 0
  {
    var d1 := ValuesOpened(d, c, k.valuePartition);
    var p :- Step(ValueAt(d1, k.valuePartition, k.valueOffset), d1);
    Step(Ok(p.0), d1)
  }

  /** What get returns for the value posting it found: null for a length of 0, the bytes otherwise. */
  function GetPayload(v: ValuesPartition.Posting): Option<seq<byte>>
  {
    if v.bytesLength == 0 then None else Some(v.bytes)
  }

  /** What put and remove return for the value posting they replace: the bytes for a positive length, null otherwise. */
  function OldPayload(v: ValuesPartition.Posting): Option<seq<byte>>
  {
    if v.bytesLength > 0 then Some(v.bytes) else None
  }

  /** For every length a value posting can be written with, get and put agree on what it holds. */
  lemma PayloadsAgree(v: ValuesPartition.Posting)
    requires v.bytesLength >= 0
    ensures GetPayload(v) == OldPayload(v)
  {
  }

  // ---------------------------------------------------------------------
  // get and containsKey

  /**
   * get(key, hashCode, revision): the value of the key in use at the
   * revision, or null when the bucket, the hash code or the key is not in
   * use then. get writes nothing: at most it creates partitions that did
   * not exist.
   */
  function GetSpec(d: Disk, c: Config, key: seq<byte>, hashCode: int, revision: int, fuel: nat): (s: Step<Option<seq<byte>>>)
    ensures OnlyOpened(d, s.disk)
  {
    var ok :- Step(ValidKey(key), d);
    var b :- Step(BucketOf(d, hashCode), d);
    var first :- FirstHashCode(d, c, b.0.posting);
    var f :- Step(HashCodeFlag(first.0.posting, revision), first.1);
    if f.0 != FileHandler.FLAG_IN_USE then Step(Ok(None), f.1)
    else GetFromHashCode(f.1, c, key, hashCode, revision, first.0, fuel)
  }

  /** get from the first hash-code posting of the bucket on. */
  function GetFromHashCode(d: Disk, c: Config, key: seq<byte>, hashCode: int, revision: int, first: HashCursor, fuel: nat): (s: Step<Option<seq<byte>>>)
    ensures OnlyOpened(d, s.disk)
  {
    var hw :- HashWalk(d, c, VisibleWithHash, hashCode, revision, first, fuel);
    if !hw.0.found then Step(Ok(None), hw.1)
    else GetFromKey(hw.1, c, key, revision, hw.0.at.posting, fuel)
  }

  /** get from the hash-code posting of the key's hash code on. */
  function GetFromKey(d: Disk, c: Config, key: seq<byte>, revision: int, h: HashCodePosting, fuel: nat): (s: Step<Option<seq<byte>>>)
    ensures OnlyOpened(d, s.disk)
  {
    var k :- FirstKey(d, c, h);
    var kw :- KeyWalk(k.1, c, KeyVisible, key, revision, k.0, None, fuel);
    if !kw.0.found then Step(Ok(None), kw.1)
    else
      var v :- ValueOf(kw.1, c, kw.0.at.posting);
      Step(Ok(GetPayload(v.0)), v.1)
  }

  /**
   * containsKey(key, hashCode, revision): whether a key posting for the key
   * is in use at the revision; a first hash-code posting never written
   * answers false at once. containsKey writes nothing either.
   */
  function ContainsSpec(d: Disk, c: Config, key: seq<byte>, hashCode: int, revision: int, fuel: nat): (s: Step<bool>)
    ensures OnlyOpened(d, s.disk)
  {
    var ok :- Step(ValidKey(key), d);
    var b :- Step(BucketOf(d, hashCode), d);
    var first :- FirstHashCode(d, c, b.0.posting);
    if first.0.posting.flag == FileHandler.FLAG_NEVER_USED then Step(Ok(false), first.1)
    else ContainsFromHashCode(first.1, c, key, hashCode, revision, first.0, fuel)
  }

  function ContainsFromHashCode(d: Disk, c: Config, key: seq<byte>, hashCode: int, revision: int, first: HashCursor, fuel: nat): (s: Step<bool>)
    ensures OnlyOpened(d, s.disk)
  {
    var hw :- HashWalk(d, c, HashWithVisible, hashCode, revision, first, fuel);
    if !hw.0.found then Step(Ok(false), hw.1)
    else
      var k :- FirstKey(hw.1, c, hw.0.at.posting);
      var kw :- KeyWalk(k.1, c, KeyVisibleCreated, key, revision, k.0, None, fuel);
      Step(Ok(kw.0.found), kw.1)
  }

  /**
   * Where get finds a value for a key, containsKey says the key is there,
   * and leaves the same files behind up to the value partition get opened.
   */
  lemma GetFoundImpliesContains(d: Disk, c: Config, key: seq<byte>, hashCode: int, revision: int, fuel: nat)
    requires GetSpec(d, c, key, hashCode, revision, fuel).result.Ok?
    requires GetSpec(d, c, key, hashCode, revision, fuel).result.value.Some?
    ensures ContainsSpec(d, c, key, hashCode, revision, fuel).result == Ok(true)
  {
    var b := BucketOf(d, hashCode).value;
    var first := FirstHashCode(d, c, b.posting);
    var at := first.result.value;
    FileHandler.NeverUsedAtEveryRevision(at.posting.createdRevision, at.posting.deletedRevision, revision);
    assert at.posting.flag != FileHandler.FLAG_NEVER_USED;
    GetFromHashCodeFound(first.disk, c, key, hashCode, revision, at, fuel);
  }

  lemma GetFromHashCodeFound(d: Disk, c: Config, key: seq<byte>, hashCode: int, revision: int, first: HashCursor, fuel: nat)
    requires GetFromHashCode(d, c, key, hashCode, revision, first, fuel).result.Ok?
    requires GetFromHashCode(d, c, key, hashCode, revision, first, fuel).result.value.Some?
    ensures ContainsFromHashCode(d, c, key, hashCode, revision, first, fuel).result == Ok(true)
  {
    HashWalkOrdersAgree(d, c, hashCode, revision, first, fuel);
    var hw := HashWalk(d, c, VisibleWithHash, hashCode, revision, first, fuel);
    var k := FirstKey(hw.disk, c, hw.result.value.at.posting);
    KeyWalkModesAgree(k.disk, c, key, revision, k.result.value, None, fuel);
  }

  // ---------------------------------------------------------------------
  // put

  /** The value posting doPut writes for a non-empty value: in use from the revision, not deleted. */
  function NewValuePosting(value: seq<byte>, revision: int): ValuesPartition.Posting
  {
    ValuesPartition.Posting(FileHandler.FLAG_IN_USE, revision, |value|, value, -1)
  }

  /** The key posting doPut writes: in use from the revision, last in its chain, pointing at the value. */
  function NewKeyPosting(key: seq<byte>, hashCode: int, revision: int, valueAt: (int, int)): KeyPosting
  {
    KeyPosting(FileHandler.FLAG_IN_USE, revision, -1, key, hashCode, -1, -1, valueAt.0, valueAt.1)
  }

  /** The hash-code posting doPut writes for a hash code new to its bucket: last in its chain, pointing at the new key. */
  function NewHashCodePosting(hashCode: int, revision: int, keyAt: (int, int)): HashCodePosting
  {
    HashCodePosting(FileHandler.FLAG_IN_USE, revision, -1, hashCode, -1, -1, keyAt.0, keyAt.1)
  }

  /**
   * The first step of doPut: the value posting, written at a reservation,
   * and where it went; an empty value writes nothing and is "nowhere",
   * (-1, -1).
   */
  function PutValue(d: Disk, c: Config, value: seq<byte>, revision: int): (s: Step<(int, int)>)
    ensures |value| == 0 ==> s == Step(Ok((-1, -1)), d)
    ensures s.disk.keys == d.keys && s.disk.hashCodes == d.hashCodes && s.disk.tables == d.tables
    ensures s.disk.md == d.md.(currentValuesPartition := s.disk.md.currentValuesPartition)
  {
    if |value| == 0 then Step(Ok((-1, -1)), d)
    else
      var vp := NewValuePosting(value, revision);
      var at :- ValueReserved(d, c, ValuesPartition.PostingByteSize(vp));
      var w :- ValueWritten(at.1, c, at.0.0, at.0.1, vp);
      Step(Ok(at.0), w.1)
  }

  /**
   * doPut into a bucket never used: the key posting, then a new hash-code
   * posting at a reservation, then the bucket posting pointing at it.
   */
  function PutNewBucket(d: Disk, c: Config, hashCode: int, revision: int, nk: KeyPosting, keyAt: (int, int), bucket: Bucket): (s: Step<Option<seq<byte>>>)
    ensures s.result.Ok? ==> s.result.value == None
    ensures s.disk.values == d.values && s.disk.tables.Keys == d.tables.Keys
    ensures s.disk.md == d.md.(currentHashCodesPartition := s.disk.md.currentHashCodesPartition)
  {
    var w :- KeyWritten(d, c, keyAt.0, keyAt.1, nk);
    var h :- HashCodeReserved(w.1, c, HASH_CODE_POSTING_BYTE_SIZE);
    var w2 :- HashCodeWritten(h.1, c, h.0.0, h.0.1, NewHashCodePosting(hashCode, revision, keyAt));
    var w3 :- SlotWritten(w2.1, bucket.tableId, bucket.offset, Hashtable.Posting(FileHandler.FLAG_IN_USE, revision, h.0.0, h.0.1, -1));
    Step(Ok(None), w3.1)
  }

  /**
   * doPut of a hash code new to a bucket in use: the key posting, then a new
   * hash-code posting at a reservation, linked after the last one.
   */
  function AppendHashCode(d: Disk, c: Config, hashCode: int, revision: int, nk: KeyPosting, keyAt: (int, int), last: HashCursor): (s: Step<Option<seq<byte>>>)
    ensures s.result.Ok? ==> s.result.value == None && KeyAt(s.disk, keyAt.0, keyAt.1) == Ok(nk)
    ensures s.disk.values == d.values && s.disk.tables == d.tables
    ensures s.disk.md == d.md.(currentHashCodesPartition := s.disk.md.currentHashCodesPartition)
  {
    var w :- KeyWritten(d, c, keyAt.0, keyAt.1, nk);
    var h :- HashCodeReserved(w.1, c, HASH_CODE_POSTING_BYTE_SIZE);
    var w2 :- HashCodeWritten(h.1, c, h.0.0, h.0.1, NewHashCodePosting(hashCode, revision, keyAt));
    var w3 :- HashCodeWritten(w2.1, c, last.partition, last.offset, last.posting.(nextPartition := h.0.0, nextOffset := h.0.1));
    Step(Ok(None), w3.1)
  }

  /** doPut of a key new to its hash code: the last key posting linked to the new one, then the new one. */
  function AppendKey(d: Disk, c: Config, nk: KeyPosting, keyAt: (int, int), last: KeyCursor): (s: Step<Option<seq<byte>>>)
    ensures s.result.Ok? ==> s.result.value == None && KeyAt(s.disk, keyAt.0, keyAt.1) == Ok(nk)
    ensures s.result.Ok? && (last.partition, last.offset) != keyAt ==>
      KeyAt(s.disk, last.partition, last.offset) == Ok(last.posting.(nextPartition := keyAt.0, nextOffset := keyAt.1))
    ensures s.disk.values == d.values && s.disk.hashCodes == d.hashCodes && s.disk.tables == d.tables && s.disk.md == d.md
  {
    var w :- KeyWritten(d, c, last.partition, last.offset, last.posting.(nextPartition := keyAt.0, nextOffset := keyAt.1));
    var w2 :- KeyWritten(w.1, c, keyAt.0, keyAt.1, nk);
    Step(Ok(None), w2.1)
  }

  /**
   * doPut of a key in use: the new key posting takes the place of the
   * current one `cur` in the chain of hash code `hc`, and `cur` is marked
   * deleted at the revision. How the chain is relinked depends on whether
   * there is a previous key posting, whether that one is deleted and first
   * in the chain, and on durable posting links.
   */
  function Replaced(d: Disk, c: Config, revision: int, nk: KeyPosting, keyAt: (int, int), hc: HashCursor, cur: KeyCursor, previous: Option<KeyCursor>, bucket: Bucket): (s: Step<()>)
    ensures s.disk.values == d.values && s.disk.tables == d.tables && s.disk.md == d.md
  {
    var firstIsNew := hc.posting.(firstKeyPartition := keyAt.0, firstKeyOffset := keyAt.1);
    match previous
    case None =>
      var nk1 := if c.usingDurablePostingLinks then nk.(nextPartition := cur.partition, nextOffset := cur.offset) else nk;
      var w :- KeyWritten(d, c, keyAt.0, keyAt.1, nk1);
      var w2 :- KeyWritten(w.1, c, cur.partition, cur.offset, MarkedKey(cur.posting, revision));
      if hc.posting.firstKeyPartition == cur.partition && hc.posting.firstKeyOffset == cur.offset then
        HashCodeWritten(w2.1, c, hc.partition, hc.offset, firstIsNew)
      else Step(Ok(()), w2.1)
    case Some(prev) =>
      var headIsPrevious := prev.posting.flag == FileHandler.FLAG_DELETED
        && hc.posting.firstKeyPartition == prev.partition && hc.posting.firstKeyOffset == prev.offset;
      if c.usingDurablePostingLinks then
        if headIsPrevious then
          var w :- KeyWritten(d, c, keyAt.0, keyAt.1, nk.(nextPartition := prev.partition, nextOffset := prev.offset));
          var w2 :- KeyMarked(w.1, c, cur.partition, hc.offset, revision);
          HashCodeWritten(w2.1, c, hc.partition, bucket.offset, firstIsNew)
        else
          var w :- KeyWritten(d, c, keyAt.0, keyAt.1, nk.(nextPartition := cur.partition, nextOffset := hc.offset));
          var w2 :- KeyWritten(w.1, c, cur.partition, cur.offset, MarkedKey(cur.posting, revision));
          KeyWritten(w2.1, c, prev.partition, prev.offset, prev.posting.(nextPartition := keyAt.0, nextOffset := keyAt.1))
      else
        if headIsPrevious then
          var w :- KeyWritten(d, c, keyAt.0, keyAt.1, nk.(nextPartition := prev.partition, nextOffset := prev.offset));
          var w2 :- HashCodeWritten(w.1, c, hc.partition, hc.offset, firstIsNew);
          var w3 :- KeyMarked(w2.1, c, cur.partition, cur.offset, revision);
          KeyWritten(w3.1, c, prev.partition, prev.offset, prev.posting.(nextOffset := -1))
        else
          var w :- KeyWritten(d, c, keyAt.0, keyAt.1, nk.(nextPartition := cur.posting.nextPartition, nextOffset := cur.posting.nextOffset));
          var w2 :- KeyWritten(w.1, c, prev.partition, prev.offset, prev.posting.(nextPartition := keyAt.0, nextOffset := keyAt.1));
          KeyMarked(w2.1, c, cur.partition, cur.offset, revision)
  }

  /** The end of doPut and doRemove: the replaced value read, marked deleted at the revision, and returned. */
  function ReplacedValue(d: Disk, c: Config, k: KeyPosting, revision: int): (s: Step<Option<seq<byte>>>)
    ensures s.result.Ok? <==> k.valueOffset >= 0
    ensures s.result.Err? ==> s.result.error != NoSuchElement
    ensures s.result.Ok? ==>
      var v := ValueAt(d, k.valuePartition, k.valueOffset).value;
      s.result.value == OldPayload(v) && ValueAt(s.disk, k.valuePartition, k.valueOffset) == Ok(MarkedValue(v, revision))
    ensures s.disk.keys == d.keys && s.disk.hashCodes == d.hashCodes && s.disk.tables == d.tables && s.disk.md == d.md
  {
    var v :- ValueOf(d, c, k);
    // The mark cannot fail where the read succeeded; `match` keeps that branch free of checks.
    var w := ValueMarked(v.1, c, k.valuePartition, k.valueOffset, revision);
    match w.result
    case Err(e) => Step(Err(e), w.disk)
    case Ok(_) => Step(Ok(OldPayload(v.0)), w.disk)
  }

  /** doPut into a bucket in use: find the hash code and then the key, and append or replace. */
  function PutIntoBucket(d: Disk, c: Config, key: seq<byte>, hashCode: int, revision: int, nk: KeyPosting, keyAt: (int, int), bucket: Bucket, fuel: nat): (s: Step<Option<seq<byte>>>)
    ensures s.disk.tables == d.tables
    ensures s.disk.md == d.md.(currentHashCodesPartition := s.disk.md.currentHashCodesPartition)
  {
    var first :- FirstHashCode(d, c, bucket.posting);
    var hw :- HashWalk(first.1, c, VisibleWithHash, hashCode, revision, first.0, fuel);
    if !hw.0.found then AppendHashCode(hw.1, c, hashCode, revision, nk, keyAt, hw.0.at)
    else
      var k :- FirstKey(hw.1, c, hw.0.at.posting);
      var kw :- KeyWalk(k.1, c, KeyVisible, key, revision, k.0, None, fuel);
      if !kw.0.found then AppendKey(kw.1, c, nk, keyAt, kw.0.at)
      else
        var r :- Replaced(kw.1, c, revision, nk, keyAt, hw.0.at, kw.0.at, kw.0.previous, bucket);
        ReplacedValue(r.1, c, kw.0.at.posting, revision)
  }

  /**
   * put(key, hashCode, value, revision): the value posting and the key
   * posting are written, the key linked into its hash code's chain (and a
   * new hash code into its bucket's), and the value the key had, if any,
   * marked deleted and returned.
   */
  function PutSpec(d: Disk, c: Config, key: seq<byte>, hashCode: int, value: seq<byte>, revision: int, fuel: nat): (s: Step<Option<seq<byte>>>)
    ensures |key| == 0 ==> s == Step(Err(IllegalArgument("Null key is not allowed")), d)
    ensures s.disk.tables.Keys == d.tables.Keys
    ensures s.disk.md == d.md.(currentHashCodesPartition := s.disk.md.currentHashCodesPartition,
      currentKeysPartition := s.disk.md.currentKeysPartition, currentValuesPartition := s.disk.md.currentValuesPartition)
  {
    var ok :- Step(ValidKey(key), d);
    var v :- PutValue(d, c, value, revision);
    var nk := NewKeyPosting(key, hashCode, revision, v.0);
    var k :- KeyReserved(v.1, c, KeyPostingByteSize(nk));
    var b :- Step(BucketOf(k.1, hashCode), k.1);
    if b.0.posting.flag == FileHandler.FLAG_NEVER_USED then PutNewBucket(k.1, c, hashCode, revision, nk, k.0, b.0)
    else PutIntoBucket(k.1, c, key, hashCode, revision, nk, k.0, b.0, fuel)
  }

  // ---------------------------------------------------------------------
  // remove

  /**
   * The durable part of unlinking `cur`: the last posting of the chain from
   * `cur` is linked to `cur`'s partition at the hash-code posting's offset,
   * and `cur`, cut from its successors, is written there too.
   */
  function DurablyUnlinked(d: Disk, c: Config, hc: HashCursor, cur: KeyCursor, fuel: nat): (s: Step<KeyPosting>)
    ensures s.result.Ok? ==>
      s.result.value == cur.posting.(nextPartition := -1, nextOffset := -1)
      && KeyAt(s.disk, cur.partition, hc.offset) == Ok(s.result.value)
    ensures s.disk.values == d.values && s.disk.hashCodes == d.hashCodes && s.disk.tables == d.tables && s.disk.md == d.md
    ensures s.result.Err? ==> s.result.error != NoSuchElement
  {
    LastKeyWalkOpensOnlyKeys(d, c, cur.partition, cur.offset, fuel);
    var last :- LastKeyWalk(d, c, cur.partition, cur.offset, fuel);
    // The last posting was just read, so writing it back cannot fail.
    var w := KeyWritten(last.1, c, last.0.partition, last.0.offset, last.0.posting.(nextPartition := cur.partition, nextOffset := hc.offset));
    match w.result
    case Err(e) => Step(Err(e), w.disk)
    case Ok(_) =>
      var ck := cur.posting.(nextPartition := -1, nextOffset := -1);
      var w2 :- KeyWritten(w.disk, c, cur.partition, hc.offset, ck);
      Step(Ok(ck), w2.1)
  }

  /**
   * doRemove's relinking around key posting `cur`: when `cur` is the first
   * key of its hash code and that hash code is the first of its bucket, the
   * hash-code and bucket postings are marked deleted; when `cur` is not the
   * first key, its previous posting is linked to what follows it.
   */
  function Unlinked(d: Disk, c: Config, revision: int, bucket: Bucket, hc: HashCursor, cur: KeyCursor, previous: Option<KeyCursor>, fuel: nat): (s: Step<()>)
    ensures s.disk.values == d.values && s.disk.md == d.md && s.disk.tables.Keys == d.tables.Keys
    ensures s.result.Err? ==> s.result.error != NoSuchElement
    ensures hc.posting.firstKeyPartition == cur.partition && hc.posting.firstKeyOffset == cur.offset ==>
      if bucket.posting.hashCodePostingPartition == hc.partition && bucket.posting.hashCodePostingPartitionOffset == hc.offset then
        s.disk.keys == d.keys
        && (s.result.Ok? ==>
          HashCodeAt(d, hc.partition, hc.offset).Ok? && bucket.tableId in d.tables && bucket.tableId in s.disk.tables
          && SlotAt(d.tables[bucket.tableId], bucket.offset).Ok?
          && HashCodeAt(s.disk, hc.partition, hc.offset) == Ok(MarkedHashCode(HashCodeAt(d, hc.partition, hc.offset).value, revision))
          && SlotAt(s.disk.tables[bucket.tableId], bucket.offset) == Ok(MarkedSlot(SlotAt(d.tables[bucket.tableId], bucket.offset).value, revision)))
      else s == Step(Ok(()), d)
    ensures !(hc.posting.firstKeyPartition == cur.partition && hc.posting.firstKeyOffset == cur.offset) ==>
      s.disk.hashCodes == d.hashCodes && s.disk.tables == d.tables
      && (s.result.Ok? && previous.Some? ==>
        var p := previous.value;
        var next := if c.usingDurablePostingLinks then (-1, -1) else (cur.posting.nextPartition, cur.posting.nextOffset);
        KeyAt(s.disk, p.partition, p.offset) == Ok(p.posting.(nextPartition := next.0, nextOffset := next.1)))
  {
    var slot := bucket.posting;
    if hc.posting.firstKeyPartition == cur.partition && hc.posting.firstKeyOffset == cur.offset then
      if slot.hashCodePostingPartition == hc.partition && slot.hashCodePostingPartitionOffset == hc.offset then
        var w :- HashCodeMarked(d, c, hc.partition, hc.offset, revision);
        SlotMarked(w.1, bucket.tableId, bucket.offset, revision)
      else Step(Ok(()), d)
    else
      var ck :- if c.usingDurablePostingLinks then DurablyUnlinked(d, c, hc, cur, fuel) else Step(Ok(cur.posting), d);
      if previous.Some? then
        var p := previous.value;
        KeyWritten(ck.1, c, p.partition, p.offset, p.posting.(nextPartition := ck.0.nextPartition, nextOffset := ck.0.nextOffset))
      else Step(Ok(()), ck.1)
  }

  /**
   * remove(key, hashCode, revision): the key posting in use at the revision
   * is unlinked and marked deleted, as is its value posting, whose value is
   * returned; NoSuchElement when the bucket, hash code or key is not there.
   */
  function RemoveSpec(d: Disk, c: Config, key: seq<byte>, hashCode: int, revision: int, fuel: nat): (s: Step<Option<seq<byte>>>)
    ensures |key| == 0 ==> s == Step(Err(IllegalArgument("Null key is not allowed")), d)
    ensures s.disk.md == d.md && s.disk.tables.Keys == d.tables.Keys
    ensures s.result == Err(NoSuchElement) ==> OnlyOpened(d, s.disk)
  {
    var ok :- Step(ValidKey(key), d);
    var b :- Step(BucketOf(d, hashCode), d);
    var f :- Step(SlotFlag(b.0.posting, revision), d);
    if f.0 != FileHandler.FLAG_IN_USE then Step(Err(NoSuchElement), d)
    else if b.0.posting.hashCodePostingPartition < 0 then Step(Err(StoreInconsistency), d)
    else
      var first :- FirstHashCode(d, c, b.0.posting);
      var hw :- HashWalk(first.1, c, HashOnly, hashCode, revision, first.0, fuel);
      if !hw.0.found then Step(Err(NoSuchElement), hw.1)
      else
        var k :- FirstKey(hw.1, c, hw.0.at.posting);
        var kw :- KeyWalk(k.1, c, KeyVisible, key, revision, k.0, None, fuel);
        if !kw.0.found then Step(Err(NoSuchElement), kw.1)
        else
          var cur := kw.0.at;
          var u :- Unlinked(kw.1, c, revision, b.0, hw.0.at, cur, kw.0.previous, fuel);
          var m :- KeyMarked(u.1, c, cur.partition, cur.offset, revision);
          ReplacedValue(m.1, c, cur.posting, revision)
  }

  // ---------------------------------------------------------------------
  // keys()

  /** Where the keys cursor reads next. */
  datatype CursorPosition = CursorPosition(partition: int, offset: int)

  /** The keys cursor shows a posting created no later than the revision and not deleted by it. */
  predicate VisibleToCursor(p: KeyPosting, revision: int)
  {
    p.createdRevision <= revision && (p.deletedRevision == -1 || p.deletedRevision > revision)
  }

  /** How much is left for the cursor to read: partitions from `at` on, and postings from its offset on. */
  function CursorRemaining(keys: map<int, Partition<KeyPosting>>, at: CursorPosition): (int, int)
  {
    (|set q | q in keys && q >= at.partition|,
     if at.partition in keys then |set o | o in keys[at.partition].postings && o >= at.offset| else 0)
  }

  lemma {:induction false} SubsetNoLarger<T>(a: set<T>, b: set<T>)
    requires a <= b
    ensures |a| <= |b|
    decreases |a|
  {
    if a != {} {
      var y :| y in a;
      SubsetNoLarger(a - {y}, b - {y});
    }
  }

  lemma ProperSubsetSmaller<T>(a: set<T>, b: set<T>, x: T)
    requires a <= b && x in b && x !in a
    ensures |a| < |b|
  {
    SubsetNoLarger(a, b - {x});
  }

  /**
   * The cursor's next(): reads key postings in order, moving to the next
   * partition (at its first posting) at a posting never written, and
   * returns the first one visible at the revision with the position after
   * it; null once the next partition does not exist.
   */
  function CursorNext(keys: map<int, Partition<KeyPosting>>, at: CursorPosition, revision: int): (r: (Option<KeyPosting>, CursorPosition))
    requires at.offset >= 0
    ensures r.1.offset >= 0
    ensures r.0.None? ==> r.1.partition !in keys && r.1.partition >= at.partition
    ensures r.0.Some? ==>
      r.1.partition in keys && r.0.value.flag != FileHandler.FLAG_NEVER_USED
      && VisibleToCursor(r.0.value, revision)
      && r.1.offset > at.offset - (if r.1.partition == at.partition then 0 else at.offset)
      && r.1.partition >= at.partition
      && exists o :: o in keys[r.1.partition].postings && keys[r.1.partition].postings[o] == r.0.value
    decreases CursorRemaining(keys, at).0, CursorRemaining(keys, at).1
  {
    if at.partition !in keys then (None, at)
    else
      var postings := keys[at.partition].postings;
      var p := PostingUnderCursor(keys, at);
      var next := at.offset + KeyPostingByteSize(p);
      if p.flag == FileHandler.FLAG_NEVER_USED then
        var to := CursorPosition(at.partition + 1, HEADER_BYTE_SIZE);
        ProperSubsetSmaller((set q | q in keys && q >= to.partition), (set q | q in keys && q >= at.partition), at.partition);
        CursorNext(keys, to, revision)
      else if VisibleToCursor(p, revision) then (Some(p), CursorPosition(at.partition, next))
      else
        var to := CursorPosition(at.partition, next);
        ProperSubsetSmaller((set o | o in postings && o >= next), (set o | o in postings && o >= at.offset), at.offset);
        CursorNext(keys, to, revision)
  }

  /** The key posting the cursor reads at a position of an existing partition; a place never written reads as zeros. */
  function PostingUnderCursor(keys: map<int, Partition<KeyPosting>>, at: CursorPosition): KeyPosting
    requires at.partition in keys
  {
    if at.offset in keys[at.partition].postings then keys[at.partition].postings[at.offset] else ZERO_KEY_POSTING
  }

  /**
   * The cursor passes over a position when its partition exists and the
   * posting there was never written or is not visible at the revision.
   */
  predicate PassedOver(keys: map<int, Partition<KeyPosting>>, at: CursorPosition, revision: int)
  {
    at.partition in keys
    && (PostingUnderCursor(keys, at).flag == FileHandler.FLAG_NEVER_USED || !VisibleToCursor(PostingUnderCursor(keys, at), revision))
  }

  /**
   * Where the cursor reads after a posting: the first posting of the next
   * partition after one never written, else the posting stored right after it.
   */
  function PassedTo(keys: map<int, Partition<KeyPosting>>, at: CursorPosition): (to: CursorPosition)
    requires at.partition in keys
    ensures to.partition > at.partition || (to.partition == at.partition && to.offset > at.offset)
    ensures at.offset >= 0 ==> to.offset >= 0
  {
    var p := PostingUnderCursor(keys, at);
    if p.flag == FileHandler.FLAG_NEVER_USED then CursorPosition(at.partition + 1, HEADER_BYTE_SIZE)
    else CursorPosition(at.partition, at.offset + KeyPostingByteSize(p))
  }

  /**
   * A stretch the cursor reads without returning anything: it passes over
   * every position but the last, and each position is where the one before
   * sends it.
   */
  predicate PassesOver(keys: map<int, Partition<KeyPosting>>, path: seq<CursorPosition>, revision: int)
  {
    forall i :: 0 <= i < |path| - 1 ==> PassedOver(keys, path[i], revision) && path[i + 1] == PassedTo(keys, path[i])
  }

  /** What the cursor answers where it stops: null past the last partition, else the posting there and the position after it. */
  function CursorStopResult(keys: map<int, Partition<KeyPosting>>, at: CursorPosition): (Option<KeyPosting>, CursorPosition)
  {
    if at.partition !in keys then (None, at)
    else (Some(PostingUnderCursor(keys, at)), CursorPosition(at.partition, at.offset + KeyPostingByteSize(PostingUnderCursor(keys, at))))
  }

  /**
   * next() returns the first posting it does not pass over: following the
   * postings in the order they are stored from any start, the first one that
   * was written and is visible at the revision is returned, or null once the
   * next partition does not exist. Nothing before it is skipped unread.
   */
  lemma {:induction false} CursorNextIsFirstStop(
    keys: map<int, Partition<KeyPosting>>, path: seq<CursorPosition>, revision: int)
    requires |path| > 0 && path[0].offset >= 0 && PassesOver(keys, path, revision)
    requires !PassedOver(keys, path[|path| - 1], revision)
    ensures CursorNext(keys, path[0], revision) == CursorStopResult(keys, path[|path| - 1])
    decreases |path|
  {
    if |path| > 1 {
      assert PassedOver(keys, path[0], revision) && path[1] == PassedTo(keys, path[0]);
      assert PassesOver(keys, path[1..], revision) by {
        forall i | 0 <= i < |path[1..]| - 1
          ensures PassedOver(keys, path[1..][i], revision) && path[1..][i + 1] == PassedTo(keys, path[1..][i])
        {
          assert path[1..][i] == path[i + 1] && path[1..][i + 1] == path[i + 2];
        }
      }
      CursorNextIsFirstStop(keys, path[1..], revision);
      assert CursorNext(keys, path[0], revision) == CursorNext(keys, path[1], revision);
    }
  }

  /**
   * From every position the cursor reaches a stop: there is a stretch it
   * passes over that ends where next() stops, and next() answers what is
   * there.
   */
  lemma {:induction false} CursorNextStops(keys: map<int, Partition<KeyPosting>>, at: CursorPosition, revision: int)
    returns (path: seq<CursorPosition>)
    requires at.offset >= 0
    ensures |path| > 0 && path[0] == at && PassesOver(keys, path, revision)
    ensures !PassedOver(keys, path[|path| - 1], revision)
    ensures CursorNext(keys, at, revision) == CursorStopResult(keys, path[|path| - 1])
    decreases CursorRemaining(keys, at).0, CursorRemaining(keys, at).1
  {
    if !PassedOver(keys, at, revision) {
      path := [at];
    } else {
      var to := PassedTo(keys, at);
      var postings := keys[at.partition].postings;
      if PostingUnderCursor(keys, at).flag == FileHandler.FLAG_NEVER_USED {
        ProperSubsetSmaller((set q | q in keys && q >= to.partition), (set q | q in keys && q >= at.partition), at.partition);
      } else {
        ProperSubsetSmaller((set o | o in postings && o >= to.offset), (set o | o in postings && o >= at.offset), at.offset);
      }
      var rest := CursorNextStops(keys, to, revision);
      path := [at] + rest;
      assert path[1..] == rest;
      assert CursorNext(keys, at, revision) == CursorNext(keys, to, revision);
    }
  }

  // ---------------------------------------------------------------------
  // rehash

  /** Hash-code partition headers as they were, and no posting removed from any partition. */
  predicate HashCodesGrown(d: Disk, d': Disk)
  {
    (forall q :: q in d.hashCodes ==> q in d'.hashCodes && d'.hashCodes[q].header == d.hashCodes[q].header)
    && (forall q, o :: q in d.hashCodes && o in d.hashCodes[q].postings ==> o in d'.hashCodes[q].postings)
  }

  lemma GrownTransitive(d: Disk, d': Disk, d'': Disk)
    requires HashCodesGrown(d, d') && HashCodesGrown(d', d'')
    ensures HashCodesGrown(d, d'')
  {
  }

  lemma OpenedGrown(d: Disk, d': Disk)
    requires OnlyOpened(d, d')
    ensures HashCodesGrown(d, d')
  {
  }

  /** Writing a hash-code posting changes no header and drops no posting. */
  lemma WrittenGrown(d: Disk, c: Config, pid: int, off: int, p: HashCodePosting)
    ensures var w := HashCodeWritten(d, c, pid, off, p);
      HashCodesGrown(d, w.disk) && w.disk.tables == d.tables && w.disk.md == d.md
      && w.disk.keys == d.keys && w.disk.values == d.values
  {
  }

  /**
   * The private rehash of one hash-code posting `p` into generation `newId`,
   * with the new posting (if any) written to partition `target` at offset
   * `at`: a bucket not in use gets a copy of `p`, with its revisions, as its
   * first hash code; otherwise a hash code not yet in the bucket's chain is
   * appended to it, without a created revision.
   */
  function RehashOne(d: Disk, c: Config, newId: int, target: int, at: int, p: HashCodePosting, fuel: nat): (s: Step<()>)
    requires newId in d.tables
    ensures newId in s.disk.tables && s.disk.md == d.md && HashCodesGrown(d, s.disk)
    ensures s.disk.keys == d.keys && s.disk.values == d.values
  {
    var t := d.tables[newId];
    var so := Hashtable.SlotOffset(p.keyHashCode, t.capacity);
    var slot :- Step(SlotAt(t, so), d);
    if slot.0.flag != FileHandler.FLAG_IN_USE then RehashedIntoBucket(d, c, newId, target, at, p, so, slot.0)
    else RehashedIntoChain(d, c, target, at, p, slot.0, fuel)
  }

  /** The copy of `p` becomes the first hash code of a bucket not in use. */
  function RehashedIntoBucket(d: Disk, c: Config, newId: int, target: int, at: int, p: HashCodePosting, so: int, slot: Hashtable.Posting): (s: Step<()>)
    requires newId in d.tables
    ensures newId in s.disk.tables && s.disk.md == d.md && HashCodesGrown(d, s.disk)
    ensures s.disk.keys == d.keys && s.disk.values == d.values
  {
    var copy := HashCodePosting(FileHandler.FLAG_IN_USE, p.createdRevision, p.deletedRevision, p.keyHashCode, -1, -1, p.firstKeyPartition, p.firstKeyOffset);
    var w :- HashCodeWritten(d, c, target, at, copy);
    SlotWritten(w.1, newId, so, slot.(flag := FileHandler.FLAG_IN_USE, hashCodePostingPartition := target, hashCodePostingPartitionOffset := at))
  }

  /** A hash code not yet in the chain of a bucket in use is appended to it. */
  function RehashedIntoChain(d: Disk, c: Config, target: int, at: int, p: HashCodePosting, slot: Hashtable.Posting, fuel: nat): (s: Step<()>)
    ensures s.disk.tables == d.tables && s.disk.md == d.md && HashCodesGrown(d, s.disk)
    ensures s.disk.keys == d.keys && s.disk.values == d.values
  {
    var first :- Step(HashCodeAt(d, target, slot.hashCodePostingPartitionOffset), d);
    var walk := HashWalk(d, c, HashOnly, p.keyHashCode, 0, HashCursor(target, slot.hashCodePostingPartitionOffset, first.0), fuel);
    OpenedGrown(d, walk.disk);
    var hw :- walk;
    if hw.0.found then Step(Ok(()), hw.1)
    else
      var appended := HashCodePosting(FileHandler.FLAG_IN_USE, 0, -1, p.keyHashCode, -1, -1, p.firstKeyPartition, p.firstKeyOffset);
      var written := HashCodeWritten(hw.1, c, target, at, appended);
      WrittenGrown(hw.1, c, target, at, appended);
      GrownTransitive(d, hw.1, written.disk);
      var w :- written;
      var last := hw.0.at;
      var linked := last.posting.(nextPartition := target, nextOffset := at);
      WrittenGrown(w.1, c, last.partition, last.offset, linked);
      GrownTransitive(d, w.1, HashCodeWritten(w.1, c, last.partition, last.offset, linked).disk);
      HashCodeWritten(w.1, c, last.partition, last.offset, linked)
  }

  /** The offset just past the hash-code posting at `off`. */
  function NextHashCodeOffset(off: int): (next: int)
    ensures next > off
  {
    off + HASH_CODE_POSTING_BYTE_SIZE
  }

  /**
   * The postings of old partition `pid` from offset `off` up to its header's
   * next free offset `end`: deleted ones are skipped, a posting never
   * written ends the partition, every other one is rehashed. `at` is where
   * the next rehashed posting goes; it moves on by one posting size for each
   * one rehashed. The result is the final `at`.
   */
  function RehashPostings(d: Disk, c: Config, newId: int, target: int, pid: int, off: int, end: int, at: int, fuel: nat): (s: Step<int>)
    requires newId in d.tables && off >= HEADER_BYTE_SIZE
    ensures newId in s.disk.tables && s.disk.md == d.md && HashCodesGrown(d, s.disk)
    ensures s.disk.keys == d.keys && s.disk.values == d.values
    ensures s.result.Ok? ==> s.result.value >= at
    decreases end - off
  {
    if off >= end then Step(Ok(at), d)
    else
      var p := HashCodeAt(d, pid, off).value;
      if p.flag == FileHandler.FLAG_DELETED then
        RehashPostings(d, c, newId, target, pid, NextHashCodeOffset(off), end, at, fuel)
      else if p.flag == FileHandler.FLAG_NEVER_USED then Step(Ok(at), d)
      else
        var w :- RehashOne(d, c, newId, target, at, p, fuel);
        RehashPostings(w.1, c, newId, target, pid, NextHashCodeOffset(off), end, NextHashCodeOffset(at), fuel)
  }

  /** A deleted posting is passed over. */
  lemma RehashPostingsSkips(d: Disk, c: Config, newId: int, target: int, pid: int, off: int, end: int, at: int, fuel: nat)
    requires newId in d.tables && HEADER_BYTE_SIZE <= off < end
    requires HashCodeAt(d, pid, off).value.flag == FileHandler.FLAG_DELETED
    ensures RehashPostings(d, c, newId, target, pid, off, end, at, fuel)
      == RehashPostings(d, c, newId, target, pid, NextHashCodeOffset(off), end, at, fuel)
  {
  }

  /** A posting in use is rehashed, and the rest of the partition follows from the files after it. */
  lemma RehashPostingsUnfolds(d: Disk, c: Config, newId: int, target: int, pid: int, off: int, end: int, at: int, fuel: nat)
    requires newId in d.tables && HEADER_BYTE_SIZE <= off < end
    requires HashCodeAt(d, pid, off).value.flag != FileHandler.FLAG_DELETED
    requires HashCodeAt(d, pid, off).value.flag != FileHandler.FLAG_NEVER_USED
    ensures var w := RehashOne(d, c, newId, target, at, HashCodeAt(d, pid, off).value, fuel);
      RehashPostings(d, c, newId, target, pid, off, end, at, fuel)
      == if w.result.Err? then Step(Err(w.result.error), w.disk)
         else RehashPostings(w.disk, c, newId, target, pid, NextHashCodeOffset(off), end, NextHashCodeOffset(at), fuel)
  {
  }

  /**
   * A posting in use is rehashed in step `one`: a failure ends the
   * partition, otherwise the rest of it follows from the files after the step.
   */
  lemma RehashPostingsMoves(d: Disk, one: Step<()>, c: Config, newId: int, target: int, pid: int, off: int, end: int, at: int, p: HashCodePosting, fuel: nat)
    requires newId in d.tables && HEADER_BYTE_SIZE <= off < end
    requires p == HashCodeAt(d, pid, off).value
    requires p.flag != FileHandler.FLAG_DELETED && p.flag != FileHandler.FLAG_NEVER_USED
    requires one == RehashOne(d, c, newId, target, at, p, fuel)
    ensures newId in one.disk.tables
    ensures one.result.Err? ==> RehashPostings(d, c, newId, target, pid, off, end, at, fuel) == Step(Err(one.result.error), one.disk)
    ensures one.result.Ok? ==> RehashPostings(d, c, newId, target, pid, off, end, at, fuel) == RehashPostings(one.disk, c, newId, target, pid, NextHashCodeOffset(off), end, NextHashCodeOffset(at), fuel)
  {
    RehashPostingsUnfolds(d, c, newId, target, pid, off, end, at, fuel);
  }

  /** The old partitions `pid` to `top` in turn; one whose file does not exist is skipped. */
  function RehashPartitions(d: Disk, c: Config, newId: int, target: int, pid: int, top: int, at: int, fuel: nat): (s: Step<int>)
    requires newId in d.tables
    ensures newId in s.disk.tables && s.disk.md == d.md && HashCodesGrown(d, s.disk)
    ensures s.disk.keys == d.keys && s.disk.values == d.values
    ensures s.result.Ok? ==> s.result.value >= at
    decreases top - pid + 1
  {
    if pid > top then Step(Ok(at), d)
    else if pid !in d.hashCodes then RehashPartitions(d, c, newId, target, pid + 1, top, at, fuel)
    else
      var r :- RehashPostings(d, c, newId, target, pid, HEADER_BYTE_SIZE, d.hashCodes[pid].header.nextPostingOffset, at, fuel);
      RehashPartitions(r.1, c, newId, target, pid + 1, top, r.0, fuel)
  }

  /**
   * The start of rehash: the current hash-code partition id moves on by one
   * (the old top is remembered), and the next hashtable generation is
   * formatted with `resolution` buckets, none in use.
   */
  function RehashStarted(d: Disk, resolution: int): (d': Disk)
    ensures d'.md.currentHashCodesPartition == d.md.currentHashCodesPartition + 1
    ensures d'.md.currentHashtableId == d.md.currentHashtableId
    ensures d.md.currentHashtableId + 1 in d'.tables
    ensures d'.tables[d.md.currentHashtableId + 1] == Table(resolution, map[])
  {
    d.(md := d.md.(currentHashCodesPartition := d.md.currentHashCodesPartition + 1),
       tables := d.tables[d.md.currentHashtableId + 1 := Table(resolution, map[])])
  }

  /**
   * The loop of rehash(resolution) over the old hash-code partitions, once
   * the current partition id has moved on and the next hashtable generation
   * is formatted: the files after it, and the offset in the new partition
   * where the next rehashed posting would go. Keys and values are not
   * touched.
   */
  function RehashLoop(d: Disk, c: Config, resolution: int, fuel: nat): (s: Step<int>)
    ensures s.disk.keys == d.keys && s.disk.values == d.values
    ensures s.disk.md == RehashStarted(d, resolution).md
    ensures d.md.currentHashtableId + 1 in s.disk.tables
    ensures d.md.currentHashCodesPartition + 1 in s.disk.hashCodes
  {
    var top := d.md.currentHashCodesPartition;
    var d1 := HashCodesOpened(RehashStarted(d, resolution), c, top + 1);
    RehashPartitions(d1, c, d.md.currentHashtableId + 1, top + 1, 0, top, d1.hashCodes[top + 1].header.nextPostingOffset, fuel)
  }

  /**
   * rehash(resolution): every hash-code posting not deleted in the old
   * partitions is rehashed into a new hashtable generation and a new
   * hash-code partition, and only then does the metadata name the new
   * generation, so a rehash that fails leaves readers on the old one. Keys
   * and values are not touched. The header of the new partition, which the
   * loop advances, is not written back.
   */
  function RehashSpec(d: Disk, c: Config, resolution: int, fuel: nat): (s: Step<()>)
    ensures s.disk.keys == d.keys && s.disk.values == d.values
    ensures s.disk.md.currentHashCodesPartition == d.md.currentHashCodesPartition + 1
    ensures s.disk.md.currentHashtableId == if s.result.Ok? then d.md.currentHashtableId + 1 else d.md.currentHashtableId
    ensures s.disk.md == d.md.(currentHashCodesPartition := s.disk.md.currentHashCodesPartition, currentHashtableId := s.disk.md.currentHashtableId)
  {
    var r :- RehashLoop(d, c, resolution, fuel);
    Step(Ok(()), r.1.(md := r.1.md.(currentHashtableId := d.md.currentHashtableId + 1)))
  }

  /**
   * rehash(resolution) with the header of the new hash-code partition
   * written back after the loop: its next free offset becomes the offset
   * the next rehashed posting would have taken, and its bytes left drop by
   * as much, so that the next reservation lands past the rehashed postings.
   */
  function RehashWithHeader(d: Disk, c: Config, resolution: int, fuel: nat): (s: Step<()>)
    ensures s.disk.keys == d.keys && s.disk.values == d.values
    ensures s.disk.md.currentHashtableId == if s.result.Ok? then d.md.currentHashtableId + 1 else d.md.currentHashtableId
  {
    var target := d.md.currentHashCodesPartition + 1;
    var r :- RehashLoop(d, c, resolution, fuel);
    var p := r.1.hashCodes[target];
    var written := p.(header := Advanced(p.header, r.0 - p.header.nextPostingOffset));
    Step(Ok(()), r.1.(hashCodes := r.1.hashCodes[target := written], md := r.1.md.(currentHashtableId := d.md.currentHashtableId + 1)))
  }
}
