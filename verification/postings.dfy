/**
 * The records the store chains together, at the level of fields. Hash-code
 * postings link the distinct hash codes that share a hashtable bucket; key
 * postings link the keys that share a hash code and point at their value
 * posting. Bucket and value postings are the ones the Hashtable and
 * ValuesPartition modules encode byte by byte.
 */
module Postings {
  import opened Wrappers
  import opened JavaInt
  import FileHandler
  import Hashtable
  import ValuesPartition

  datatype HashCodePosting = HashCodePosting(
    flag: int,
    createdRevision: int,
    deletedRevision: int,
    keyHashCode: int,
    nextPartition: int,
    nextOffset: int,
    firstKeyPartition: int,
    firstKeyOffset: int)

  /** flag, created and deleted revisions, hash code, then the next and first-key pointers as four ints. */
  const HASH_CODE_POSTING_BYTE_SIZE: int := 1 + 8 + 8 + 8 + 4 + 4 + 4 + 4

  datatype KeyPosting = KeyPosting(
    flag: int,
    createdRevision: int,
    deletedRevision: int,
    bytes: seq<byte>,
    keyHashCode: int,
    nextPartition: int,
    nextOffset: int,
    valuePartition: int,
    valueOffset: int)

  /** flag, created and deleted revisions, key length and bytes, hash code, next and value pointers. */
  function KeyPostingByteSize(p: KeyPosting): int
  {
    1 + 8 + 8 + 4 + |p.bytes| + 8 + 4 + 4 + 4 + 4
  }

  /** What a read finds where nothing was written: the file is zero-filled when formatted. */
  const ZERO_HASH_CODE_POSTING: HashCodePosting := HashCodePosting(0, 0, 0, 0, 0, 0, 0, 0)
  const ZERO_KEY_POSTING: KeyPosting := KeyPosting(0, 0, 0, [], 0, 0, 0, 0, 0)
  const ZERO_VALUE_POSTING: ValuesPartition.Posting := ValuesPartition.Posting(0, 0, 0, [], 0)
  const ZERO_SLOT: Hashtable.Posting := Hashtable.Posting(0, 0, 0, 0, 0)

  /** getFlagForRevision on each kind of posting. */
  function HashCodeFlag(p: HashCodePosting, revision: int): Result<int>
  {
    FileHandler.FlagForRevision(p.flag, p.createdRevision, p.deletedRevision, revision)
  }

  function KeyFlag(p: KeyPosting, revision: int): Result<int>
  {
    FileHandler.FlagForRevision(p.flag, p.createdRevision, p.deletedRevision, revision)
  }

  function SlotFlag(p: Hashtable.Posting, revision: int): Result<int>
  {
    FileHandler.FlagForRevision(p.flag, p.createdRevision, p.deletedRevision, revision)
  }

  /** markPostingAsDeleted on each kind: the flag becomes DELETED and the deleted revision is set; nothing else changes. */
  function MarkedHashCode(p: HashCodePosting, revision: int): HashCodePosting
  {
    p.(flag := FileHandler.FLAG_DELETED, deletedRevision := revision)
  }

  function MarkedKey(p: KeyPosting, revision: int): KeyPosting
  {
    p.(flag := FileHandler.FLAG_DELETED, deletedRevision := revision)
  }

  function MarkedValue(p: ValuesPartition.Posting, revision: int): ValuesPartition.Posting
  {
    p.(flag := FileHandler.FLAG_DELETED, deletedRevision := revision)
  }

  function MarkedSlot(p: Hashtable.Posting, revision: int): Hashtable.Posting
  {
    p.(flag := FileHandler.FLAG_DELETED, deletedRevision := revision)
  }

  /**
   * A posting created at c and marked deleted at r: at every revision it
   * looks as it did before the mark while the revision is below r, and
   * deleted from r on, if it was in use and created no later than r.
   */
  lemma MarkedKeyVisibility(p: KeyPosting, r: int, revision: int)
    requires p.flag == FileHandler.FLAG_IN_USE && p.createdRevision <= r
    ensures revision < r ==> KeyFlag(MarkedKey(p, r), revision) == KeyFlag(p, revision)
    ensures r <= revision ==> KeyFlag(MarkedKey(p, r), revision) == Ok(FileHandler.FLAG_DELETED)
  {
  }
}
