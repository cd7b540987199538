# platodb store core in Dafny

platodb keeps byte keys and byte values in a revision-versioned, partitioned
hash chain on disk. The model has these layers.

- **The hashtable file.** It has a 1024-byte header that holds its capacity. After the header comes one 25-byte bucket posting per bucket.
- **Bucket postings.** A bucket posting points at the first hash-code posting of its chain.
- **Hash-code postings.** Hash codes that share a bucket are linked through hash-code partitions. Each hash-code posting points at the first key posting of its keys.
- **Key postings.** Keys that share a hash code are linked through key partitions. Each key posting points at one value posting in a values partition.
- **Revisions.** Every posting carries a flag and the revisions it was created and deleted at. A read at revision `r` sees a posting only while `r` lies inside that interval.
- **The metadata file.** It holds:
  - the store revision;
  - the id of the current hashtable generation;
  - the current partition of each kind;
  - the number of value postings.

The model is split into modules.

- **Byte-level file handlers.** They sit on a `RandomAccessFile` class: a byte sequence and a cursor, big-endian, two's complement. Writing past the end pads with zeros.
  - `Hashtable` encodes and decodes the bucket posting byte by byte.
  - `ValuesPartition` does the same for the value posting and its header.
  - `Metadata` does the same for the metadata header.
  - `FileHandler` holds the revision visibility rule (`getFlagForRevision`) and the zero-padded file names.
- **`StoreFiles`.** The whole store directory as values:
  - the metadata header;
  - one map per partition kind, from partition id to a header and to the postings written at each offset;
  - the hashtable generations.

  Every operation on the directory is a function that returns a `Step`: the result, or the exception, together with the files left behind.
- **`StoreAccessor.Accessor`.** A class over that directory. Its methods are the accessor's opening of partitions, reservation of write space (`requestValueWrite`), writes and deletion marks. Each method's new state is stated against the `StoreFiles` functions.
- **Chain walks.** `StoreWalks` holds the walks along hash-code and key chains, bounded by fuel.
- **`StoreSpec`.** The store operations as functions:
  - `get`, `containsKey`, `put`, `remove`;
  - the keys cursor;
  - `rehash`.
- **`StoreOperations`.** The same operations as imperative methods with `while` loops, each proved equal to its `StoreSpec` function.
- **Whole-operation properties.** `StoreScenarios` and `RehashHeader` prove them on top: put then get, remove then get, replace then get, rehash then get.
- **`Locking`.** The write lock: re-entrant obtain and release, and obtain with a timeout that polls every second.
- **`SingleInstance`.** The in-process lock factory.
- **`Sequences`.** The file-based long sequence, which reserves ranges of ids.
- **`KeyCodec`.** The key codec that turns a long into four bytes and back.

## Model

| member | source | states |
|---|---|---|
| FileHandler.FlagForRevision | src/main/java/org/atri/platodb/store/data/FileHandler.java:142-168 | The visibility of a posting succeeds exactly for the flags never-used, in-use and deleted. Any other flag is a store error. |
| FileHandler.NeverUsedAtEveryRevision | src/main/java/org/atri/platodb/store/data/FileHandler.java:143-145 | A posting never used reads as never used at every revision. |
| FileHandler.VisibleInterval | src/main/java/org/atri/platodb/store/data/FileHandler.java:147-165 | An in-use or deleted posting is in use at a revision iff it was created at or before it and is not yet deleted at it. It reads as never used iff the revision precedes its creation. It reads as deleted iff it was deleted at or before the revision. |
| FileHandler.VisibleLater | src/main/java/org/atri/platodb/store/data/FileHandler.java:147-165 | A posting in use at one revision stays in use at every later revision before its deletion. |
| FileHandler.FileName | src/main/java/org/atri/platodb/store/data/FileHandler.java:47-54 | The file name built for an id and a suffix is the decimal id left-padded with zeros to eight characters, then "." and the suffix. |
| FileHandler.PadWithZeros | src/main/java/org/atri/platodb/store/data/FileHandler.java:49-51 | The padding loop inserts zeros in front until the name has at least eight characters, and changes a longer name not at all. |
| FileHandler.NameOfDenotesId | src/main/java/org/atri/platodb/store/data/FileHandler.java:47-54 | A file name is eight or more decimal digits, then the suffix. Parsing the digits back gives the id. |
| FileHandler.NamesDistinct | src/main/java/org/atri/platodb/store/data/FileHandler.java:47-54 | Distinct ids never share a file name, so two partitions never share a file. |
| FileHandler.ParseDigits | src/main/java/org/atri/platodb/store/data/FileHandler.java:49 | The decimal rendering of an id parses back to the id. |
| FileHandler.ParseLeadingZeros | src/main/java/org/atri/platodb/store/data/FileHandler.java:50-52 | The zeros the padding loop inserts do not change the number the name denotes. |
| Hashtable.NewPosting | src/main/java/org/atri/platodb/store/data/platotrie/Hashtable.java:99-113 | A new bucket posting is never used and has deleted revision -1. |
| Hashtable.PostingSize | src/main/java/org/atri/platodb/store/data/platotrie/Hashtable.java:88 | A bucket posting encodes to exactly POSTING_BYTE_SIZE = 1+8+4+4+8 = 25 bytes. |
| Hashtable.PostingRoundTrip | src/main/java/org/atri/platodb/store/data/platotrie/Hashtable.java:170-184 | Reading back an encoded bucket posting gives the posting that was written. |
| Hashtable.BytesRoundTrip | src/main/java/org/atri/platodb/store/data/platotrie/Hashtable.java:170-184 | Re-encoding any 25 bytes after decoding them gives the same bytes, so the encoding is a bijection on well-formed postings. |
| Hashtable.ReadPosting | src/main/java/org/atri/platodb/store/data/platotrie/Hashtable.java:170-176 | Reading decodes the 25 bytes at the cursor and moves the cursor past them. With fewer bytes left it fails with end of file. |
| Hashtable.WritePosting | src/main/java/org/atri/platodb/store/data/platotrie/Hashtable.java:178-184 | Writing puts the posting's encoding at the cursor, leaves every other byte alone and moves the cursor by 25. |
| Hashtable.ReadPostingAt | src/main/java/org/atri/platodb/store/data/FileHandler.java:207-216 | Reading at a negative offset fails. Otherwise it decodes the posting at the offset, or reports end of file. |
| Hashtable.WritePostingAt | src/main/java/org/atri/platodb/store/data/FileHandler.java:188-195 | Writing at a negative offset fails and changes nothing. Otherwise the encoding lands at the offset. |
| Hashtable.WriteThenRead | src/main/java/org/atri/platodb/store/data/FileHandler.java:188-216 | A posting written at any offset is read back unchanged from that offset. |
| Hashtable.MarkPostingAsDeleted | src/main/java/org/atri/platodb/store/data/platotrie/Hashtable.java:186-191 | Marking at a negative offset fails. Otherwise it overwrites the flag byte with 2 and the deleted-revision field with the revision. |
| Hashtable.MarkDeletedEffect | src/main/java/org/atri/platodb/store/data/platotrie/Hashtable.java:186-191 | After the mark, the posting reads back as the old posting with flag 2 and the new deleted revision. No other byte of the file changes. |
| Hashtable.BucketIndexInRange | src/main/java/org/atri/platodb/store/data/platotrie/Hashtable.java:166-168 | For any hash code, even a negative one, `hashCode & (capacity-1)` is a bucket index within the capacity. |
| Hashtable.BucketIndexPowerOfTwo | src/main/java/org/atri/platodb/store/data/platotrie/Hashtable.java:166-168 | For a power-of-two capacity, the bucket index is the hash code modulo the capacity. |
| Hashtable.SlotInsideFile | src/main/java/org/atri/platodb/store/data/platotrie/Hashtable.java:166-168 | A bucket offset lies after the header, on a posting boundary, with the whole posting inside the formatted file. |
| Hashtable.Hashtable.Open | src/main/java/org/atri/platodb/store/data/platotrie/Hashtable.java:55-58 | Opening reads the capacity from the header, or fails with end of file on a file shorter than four bytes. |
| Hashtable.Hashtable.WriteHeader | src/main/java/org/atri/platodb/store/data/platotrie/Hashtable.java:160-164 | Writing the header stores the capacity as a four-byte int at offset 0 and remembers it. |
| Hashtable.Hashtable.CalculateHashCodePostingOffset | src/main/java/org/atri/platodb/store/data/platotrie/Hashtable.java:166-168 | For a capacity from 1 up to what an int-sized file can hold, the bucket offset lies after the header, on a posting boundary, with the whole posting inside the table. |
| Hashtable.Hashtable.WriteHeaderThenOffset | src/main/java/org/atri/platodb/store/data/platotrie/Hashtable.java:166-168 | After the header is written, every hash code's bucket offset lies inside the formatted postings area. |
| ValuesPartition.ReservationCoversWrite | src/main/java/org/atri/platodb/store/data/platotrie/ValuesPartition.java:110-112 | The size used to reserve space is the written encoding (21 bytes plus the payload) plus 16 spare bytes, so the reservation covers the write. |
| ValuesPartition.ReadPosting | src/main/java/org/atri/platodb/store/data/platotrie/ValuesPartition.java:165-177 | Reading decodes the posting at the cursor and moves the cursor past exactly the bytes it consumed. A short payload read fails with "Unexpected EOF". |
| ValuesPartition.ReadFixedFields | src/main/java/org/atri/platodb/store/data/platotrie/ValuesPartition.java:166-168 | Reads the flag, the created revision and the payload length that open a value posting, or fails with end of file. |
| ValuesPartition.WritePosting | src/main/java/org/atri/platodb/store/data/platotrie/ValuesPartition.java:179-187 | Writing lays out the flag, created revision, length, the payload (only when the length is positive) and deleted revision at the cursor. |
| ValuesPartition.PostingRoundTrip | src/main/java/org/atri/platodb/store/data/platotrie/ValuesPartition.java:165-187 | A posting written and read back is the same posting, except that an empty payload leaves the reader's previous byte buffer in place. |
| ValuesPartition.ShortPayload | src/main/java/org/atri/platodb/store/data/platotrie/ValuesPartition.java:171-174 | When the file ends inside the payload, the read fails with "Unexpected EOF". |
| ValuesPartition.ReadPostingAt | src/main/java/org/atri/platodb/store/data/FileHandler.java:207-216 | Reading at a negative offset fails. Otherwise it decodes at the offset. |
| ValuesPartition.WritePostingAt | src/main/java/org/atri/platodb/store/data/FileHandler.java:188-195 | Writing at a negative offset fails and changes nothing. Otherwise the encoding lands at the offset. |
| ValuesPartition.MarkPostingAsDeleted | src/main/java/org/atri/platodb/store/data/platotrie/ValuesPartition.java:189-195 | Marking writes flag 2. It then skips the created revision, the length and the payload, and writes the deleted revision. A negative offset fails. |
| ValuesPartition.MarkDeletedFrame | src/main/java/org/atri/platodb/store/data/platotrie/ValuesPartition.java:189-195 | Marking changes only the flag byte and the eight deleted-revision bytes of the posting. |
| ValuesPartition.MarkDeletedEffect | src/main/java/org/atri/platodb/store/data/platotrie/ValuesPartition.java:189-195 | After the mark, the posting reads back as before with flag 2 and the new deleted revision. |
| ValuesPartition.ReadHeader | src/main/java/org/atri/platodb/store/data/platotrie/ValuesPartition.java:155-158 | The header is the next free offset and the bytes left, as two ints at offset 0. A file shorter than eight bytes fails. |
| ValuesPartition.WriteHeader | src/main/java/org/atri/platodb/store/data/platotrie/ValuesPartition.java:160-163 | Writing the header overwrites exactly its eight bytes at offset 0. |
| ValuesPartition.HeaderRoundTrip | src/main/java/org/atri/platodb/store/data/platotrie/ValuesPartition.java:155-163 | A written header reads back unchanged, and the postings after it are untouched. |
| Metadata.HeaderFits | src/main/java/org/atri/platodb/store/data/Metadata.java:37 | The encoded header (36 bytes) fits the 1024-byte header area. |
| Metadata.HeaderRoundTrip | src/main/java/org/atri/platodb/store/data/Metadata.java:142-161 | A written header reads back as the same seven fields, and bytes beyond it are untouched. |
| Metadata.Header.IncreaseRevision | src/main/java/org/atri/platodb/store/data/Metadata.java:128-130 | The store revision grows by the given amount, wrapping as a Java long, and is returned. No other field changes. |
| Metadata.Header.IncreaseValuePostingsCount | src/main/java/org/atri/platodb/store/data/Metadata.java:132-134 | The value-postings count grows by the amount, as a Java long. No other field changes. |
| Metadata.Header.DecreaseValuePostingsCount | src/main/java/org/atri/platodb/store/data/Metadata.java:136-138 | The value-postings count shrinks by the amount, as a Java long. No other field changes. |
| Metadata.IncreaseRevisionAdds | src/main/java/org/atri/platodb/store/data/Metadata.java:128-130 | Without overflow, increasing the revision by a positive amount gives a strictly larger revision. |
| Metadata.ReadHeader | src/main/java/org/atri/platodb/store/data/Metadata.java:142-151 | Reading sets the header's fields to those decoded from offset 0. A short file fails with end of file once the fields read so far are set. |
| Metadata.WriteHeader | src/main/java/org/atri/platodb/store/data/Metadata.java:153-161 | Writing lays the seven fields in order from offset 0. |
| Metadata.PostingOperation | src/main/java/org/atri/platodb/store/data/Metadata.java:163-173 | Posting reads, writes and marks on the metadata file are unsupported operations. |
| Postings.MarkedKeyVisibility | src/main/java/org/atri/platodb/store/Store.java:864 | A key marked deleted at revision r stays as visible as before to reads before r. From r on it reads as deleted. |
| StoreFiles.Opened | src/main/java/org/atri/platodb/store/Accessor.java:166-192 | Opening a partition adds a formatted partition only when it does not exist yet, and keeps every existing partition. |
| StoreFiles.PostingAt | src/main/java/org/atri/platodb/store/data/FileHandler.java:207-216 | Reading a posting fails exactly when the offset is negative. |
| StoreFiles.WithPosting | src/main/java/org/atri/platodb/store/data/FileHandler.java:188-195 | Writing a posting fails exactly when the offset is negative. |
| StoreFiles.ReadAfterWrite | src/main/java/org/atri/platodb/store/data/FileHandler.java:188-216 | After a write, the written offset reads back as the new posting and every other offset as before. |
| StoreFiles.Reserve | src/main/java/org/atri/platodb/store/Accessor.java:266-301 | A reservation either stays in the current partition or rolls over to the next one. It hands out the partition's next free offset and advances that partition's header by the request. |
| StoreAccessor.Accessor.constructor | src/main/java/org/atri/platodb/store/Accessor.java:58-113 | A new store is bootstrapped with hashtable 0 at the initial capacity, hash-code partition 0 and values partition 0. An existing store is taken as it is. |
| StoreAccessor.Accessor.IncreaseStoreRevision | src/main/java/org/atri/platodb/store/Accessor.java:115-125 | The metadata's store revision grows by one and is returned. Nothing else changes. |
| StoreAccessor.Accessor.GetHashtable | src/main/java/org/atri/platodb/store/Accessor.java:153-163 | Returns the current hashtable generation. It reuses the cached one while the id still matches, and fails when that generation's file does not exist. |
| StoreAccessor.Accessor.GetHashCodesPartition | src/main/java/org/atri/platodb/store/Accessor.java:166-192 | The partition is opened, and formatted when new. Its id is cached. |
| StoreAccessor.Accessor.GetKeysPartition | src/main/java/org/atri/platodb/store/Accessor.java:196-229 | A partition is found iff it exists or creation was requested. Only then is it opened and cached. |
| StoreAccessor.Accessor.GetValuesPartition | src/main/java/org/atri/platodb/store/Accessor.java:231-257 | The partition is opened, and formatted when new. Its id is cached. |
| StoreAccessor.Accessor.RequestValueWrite | src/main/java/org/atri/platodb/store/Accessor.java:266-301 | Reserves space in the current values partition, rolling over to a new partition when the space left is too small. A posting larger than an empty partition is refused. |
| StoreAccessor.Accessor.RequestKeyWrite | src/main/java/org/atri/platodb/store/Accessor.java:310-346 | The same reservation on the key partitions. |
| StoreAccessor.Accessor.RequestHashCodeWrite | src/main/java/org/atri/platodb/store/Accessor.java:355-391 | The same reservation on the hash-code partitions. |
| StoreAccessor.Accessor.WriteValue | src/main/java/org/atri/platodb/store/data/FileHandler.java:188-195 | Writes a value posting through the accessor. The new files are exactly the written ones. |
| StoreAccessor.Accessor.WriteKey | src/main/java/org/atri/platodb/store/data/FileHandler.java:188-195 | Writes a key posting through the accessor. |
| StoreAccessor.Accessor.WriteHashCode | src/main/java/org/atri/platodb/store/data/FileHandler.java:188-195 | Writes a hash-code posting through the accessor. |
| StoreAccessor.Accessor.WriteSlot | src/main/java/org/atri/platodb/store/data/FileHandler.java:188-195 | Writes a bucket posting into a hashtable generation. |
| StoreAccessor.Accessor.MarkValue | src/main/java/org/atri/platodb/store/data/FileHandler.java:182-186 | Marks a value posting deleted at a revision. |
| StoreAccessor.Accessor.MarkKey | src/main/java/org/atri/platodb/store/data/FileHandler.java:182-186 | Marks a key posting deleted at a revision. |
| StoreAccessor.Accessor.MarkHashCode | src/main/java/org/atri/platodb/store/data/FileHandler.java:182-186 | Marks a hash-code posting deleted at a revision. |
| StoreAccessor.Accessor.MarkSlot | src/main/java/org/atri/platodb/store/data/FileHandler.java:182-186 | Marks a bucket posting deleted at a revision. |
| StoreAccessor.OpenedIdempotent | src/main/java/org/atri/platodb/store/Accessor.java:166-192 | Opening a partition twice is opening it once, and opening an existing partition changes nothing. |
| StoreAccessor.FormattedBalanced | src/main/java/org/atri/platodb/store/Accessor.java:266-301 | A freshly formatted partition's next free offset plus bytes left add up to its size. |
| StoreAccessor.ReserveKeepsBalance | src/main/java/org/atri/platodb/store/Accessor.java:266-301 | Reservations keep every partition balanced. A granted reservation lies after the header and inside the partition. |
| StoreAccessor.ReserveAdvances | src/main/java/org/atri/platodb/store/Accessor.java:291-298 | A granted reservation returns the old next free offset. The header's next offset grows, and its bytes left shrink, by the request. |
| StoreAccessor.ReserveRollsOver | src/main/java/org/atri/platodb/store/Accessor.java:277-288 | When the current partition has too little room, the reservation moves to the next partition id and starts at its first free offset. |
| StoreAccessor.TooLargeRefused | src/main/java/org/atri/platodb/store/Accessor.java:279-282 | A posting larger than an empty values partition is refused, and the metadata is unchanged. |
| StoreAccessor.SuccessiveReservationsDisjoint | src/main/java/org/atri/platodb/store/Accessor.java:291-298 | Two reservations in the same partition are adjacent and never overlap. |
| StoreSpec.ValidKey | src/main/java/org/atri/platodb/store/Store.java:129-133 | A key is accepted iff it is non-empty. An empty key is an illegal-argument error. |
| StoreSpec.BucketOf | src/main/java/org/atri/platodb/store/Store.java:143-145 | The bucket read is the one at the current generation's slot for the hash code. |
| StoreSpec.FirstHashCode | src/main/java/org/atri/platodb/store/Store.java:150-152 | Follows the bucket's pointer to its first hash-code posting. It only opens files. |
| StoreSpec.FirstKey | src/main/java/org/atri/platodb/store/Store.java:176-179 | Follows a hash-code posting's pointer to its first key posting. It only opens files. |
| StoreSpec.ValueOf | src/main/java/org/atri/platodb/store/Store.java:202-209 | Reading the value fails exactly when the key's value offset is negative. |
| StoreSpec.PayloadsAgree | src/main/java/org/atri/platodb/store/Store.java:202-209 | The payload returned by get and the old value returned by put and remove agree for every value posting. |
| StoreSpec.GetSpec | src/main/java/org/atri/platodb/store/Store.java:139-210 | A get only opens files. It never writes a posting. |
| StoreSpec.GetFromHashCode | src/main/java/org/atri/platodb/store/Store.java:156-210 | The part of get after the bucket only opens files. |
| StoreSpec.GetFromKey | src/main/java/org/atri/platodb/store/Store.java:180-210 | The part of get after the hash code only opens files. |
| StoreSpec.ContainsSpec | src/main/java/org/atri/platodb/store/Store.java:886-954 | containsKey only opens files. |
| StoreSpec.ContainsFromHashCode | src/main/java/org/atri/platodb/store/Store.java:912-954 | The part of containsKey after the bucket only opens files. |
| StoreSpec.GetFoundImpliesContains | src/main/java/org/atri/platodb/store/Store.java:139-210 | Whenever get finds a value, containsKey at the same revision answers true. |
| StoreSpec.GetFromHashCodeFound | src/main/java/org/atri/platodb/store/Store.java:156-210 | The same from the first hash-code posting on. |
| StoreSpec.PutValue | src/main/java/org/atri/platodb/store/Store.java:251-282 | An empty value writes no value posting, and the key gets the pointer (-1, -1). Only value postings change, and of the metadata only the current values partition. |
| StoreSpec.PutNewBucket | src/main/java/org/atri/platodb/store/Store.java:320-352 | A put into an unused bucket returns null. It writes no value posting and adds no hashtable generation. Of the metadata only the current hash-code partition may change. |
| StoreSpec.AppendHashCode | src/main/java/org/atri/platodb/store/Store.java:374-410 | Appending a hash code new to its bucket returns null, and the new key posting reads back at its reserved place. The hashtable and the values are unchanged. Of the metadata only the current hash-code partition may change. |
| StoreSpec.AppendKey | src/main/java/org/atri/platodb/store/Store.java:443-453 | Appending a key new to its hash code returns null. The new key posting reads back at its reserved place, and the chain's last key now points at it. Only key postings change. |
| StoreSpec.Replaced | src/main/java/org/atri/platodb/store/Store.java:476-628 | Replacing a key writes only key and hash-code postings: the hashtable, the values and the metadata are unchanged. |
| StoreSpec.ReplacedValue | src/main/java/org/atri/platodb/store/Store.java:633-646 | The old value posting is marked deleted at the revision and its payload returned, or null for an empty one. It fails exactly on a negative value offset, never with NoSuchElement. Only value postings change. |
| StoreSpec.PutIntoBucket | src/main/java/org/atri/platodb/store/Store.java:354-650 | A put into a bucket in use never writes the hashtable. Of the metadata only the current hash-code partition may change. |
| StoreSpec.PutSpec | src/main/java/org/atri/platodb/store/Store.java:248-650 | An empty key is refused before anything is read or written. A put never adds or drops a hashtable generation. Of the metadata only the three current-partition ids may change. |
| StoreSpec.DurablyUnlinked | src/main/java/org/atri/platodb/store/Store.java:829-844 | With durable links, a copy of the removed key with next (-1, -1) is written in the removed key's partition, at the hash-code posting's offset, and reads back there. Only key postings change, and it never raises NoSuchElement. |
| StoreSpec.Unlinked | src/main/java/org/atri/platodb/store/Store.java:788-862 | Three cases. (1) The chain's first key, whose hash code heads the bucket: the hash-code and bucket postings are marked deleted at the revision, and no key is written. (2) A first key whose hash code does not head the bucket: nothing is written. (3) A later key: only key postings change, and the previous key now points where the removed key pointed, or at (-1, -1) with durable links. It never raises NoSuchElement. |
| StoreSpec.RemoveSpec | src/main/java/org/atri/platodb/store/Store.java:691-884 | An empty key is refused before anything is read. remove never changes the metadata or the set of hashtable generations. When it raises NoSuchElement it has only opened files. |
| StoreSpec.CursorNext | src/main/java/org/atri/platodb/store/Store.java:962-979 | The keys cursor returns only key postings that were written and are visible at the revision. It only moves forward: to a later offset in the same partition, or to a later partition. It ends past the last partition. |
| StoreSpec.PassedTo | src/main/java/org/atri/platodb/store/Store.java:969-974 | After a posting it does not return, the cursor moves strictly forward. After a posting never written (flag 0) it goes to the first posting of the next partition. Otherwise it goes to the posting stored right after. |
| StoreSpec.CursorNextIsFirstStop | src/main/java/org/atri/platodb/store/Store.java:962-976 | Take any stretch of positions the cursor passes over, each posting never written or not visible, each position the one the previous sends it to. next() from the stretch's start returns what lies at its end: the first written posting visible at the revision, with the position after it, or null when that partition does not exist. So nothing is skipped. |
| StoreSpec.CursorNextStops | src/main/java/org/atri/platodb/store/Store.java:962-976 | From every position such a stretch exists, and next() answers what is at its end. With CursorNextIsFirstStop this determines next() completely. |
| StoreSpec.RehashOne | src/main/java/org/atri/platodb/store/Store.java:1097-1184 | Rehashing one hash-code posting only adds hash-code postings and writes the new table. Keys, values and metadata are unchanged. |
| StoreSpec.RehashedIntoBucket | src/main/java/org/atri/platodb/store/Store.java:1107-1130 | A posting whose new bucket is empty takes the bucket. Keys, values and metadata are unchanged. |
| StoreSpec.RehashedIntoChain | src/main/java/org/atri/platodb/store/Store.java:1132-1180 | A posting whose new bucket is taken is appended to that chain. The table, keys, values and metadata are unchanged. |
| StoreSpec.RehashPostings | src/main/java/org/atri/platodb/store/Store.java:1036-1073 | Running through one old partition only adds hash-code postings, and never moves the next write position back. |
| StoreSpec.RehashPostingsSkips | src/main/java/org/atri/platodb/store/Store.java:1040-1041 | A deleted hash-code posting is skipped and not rehashed. |
| StoreSpec.RehashPostingsUnfolds | src/main/java/org/atri/platodb/store/Store.java:1040-1055 | An in-use posting is rehashed, then the loop goes on one posting further, in the old partition and in the target alike. |
| StoreSpec.RehashPostingsMoves | src/main/java/org/atri/platodb/store/Store.java:1040-1055 | An error from rehashing one posting ends the loop. Otherwise the loop goes on from the next posting. |
| StoreSpec.RehashPartitions | src/main/java/org/atri/platodb/store/Store.java:1026-1076 | Running through every old partition keeps keys, values and metadata, and only adds hash-code postings. |
| StoreSpec.RehashStarted | src/main/java/org/atri/platodb/store/Store.java:1003-1016 | Rehash first moves to a new hash-code partition and creates the next hashtable generation, empty, with the requested capacity. |
| StoreSpec.RehashLoop | src/main/java/org/atri/platodb/store/Store.java:1003-1076 | The rehash loop keeps keys and values, leaves the metadata as set at the start, and creates the new table and target partition. |
| StoreSpec.RehashSpec | src/main/java/org/atri/platodb/store/Store.java:997-1080 | Rehash keeps every key and value posting. It always moves to a new hash-code partition. It switches to the new hashtable generation iff it succeeds. No other metadata field changes. |
| StoreSpec.RehashWithHeader | src/main/java/org/atri/platodb/store/Store.java:1056-1060 | The corrected rehash also writes the target partition's header back. Keys and values are kept, and the table switches iff it succeeds. |
| StoreWalks.HashMatches | src/main/java/org/atri/platodb/store/Store.java:158-170 | A hash-code posting matches iff its hash code equals the sought one and, where the walk checks visibility, it is in use at the revision. An unknown flag is an error exactly when the walk evaluates it. |
| StoreWalks.KeyMatches | src/main/java/org/atri/platodb/store/Store.java:182-194 | A key posting matches iff it is in use at the revision and holds the sought bytes. An unknown flag is always an error. |
| StoreWalks.CreatedCheckRedundant | src/main/java/org/atri/platodb/store/Store.java:937-952 | containsKey's extra check that the key was created by the revision adds nothing to the visibility check. |
| StoreWalks.HashOrdersAgree | src/main/java/org/atri/platodb/store/Store.java:912-927 | Checking the hash code before or after the visibility gives the same answer whenever neither fails. |
| StoreWalks.HashWalk | src/main/java/org/atri/platodb/store/Store.java:156-170 | The hash-code walk only opens files. It stops on a matching posting, or on the last posting of the chain when none matches. |
| StoreWalks.HashWalkFuel | src/main/java/org/atri/platodb/store/Store.java:156-170 | A walk that ends within the fuel gives the same result with more fuel. |
| StoreWalks.HashWalkOrdersAgree | src/main/java/org/atri/platodb/store/Store.java:912-927 | The hash-code walks of get and containsKey agree on every chain the get walk completes. |
| StoreWalks.KeyWalk | src/main/java/org/atri/platodb/store/Store.java:180-194 | The key walk only opens files. It stops on a matching key, or at the chain's end, and it records the posting before the stop. |
| StoreWalks.KeyWalkFuel | src/main/java/org/atri/platodb/store/Store.java:180-194 | A key walk that ends within the fuel gives the same result with more fuel. |
| StoreWalks.KeyWalkModesAgree | src/main/java/org/atri/platodb/store/Store.java:937-952 | The key walks of get and containsKey always agree. |
| StoreWalks.LastKeyWalk | src/main/java/org/atri/platodb/store/Store.java:829-850 | The walk to the last key of a chain ends on a posting written in an existing partition, with no successor. |
| StoreWalks.LastKeyWalkFuel | src/main/java/org/atri/platodb/store/Store.java:829-850 | More fuel does not change a completed walk to the last key. |
| StoreWalks.LastKeyWalkOpensOnlyKeys | src/main/java/org/atri/platodb/store/Store.java:829-838 | The walk to the last key only opens key partitions, and never raises NoSuchElement. |
| StoreOperations.SeekHashCode | src/main/java/org/atri/platodb/store/Store.java:156-170 | The hash-code loop reaches exactly the stop, and the files, of the hash-code walk. |
| StoreOperations.SeekKey | src/main/java/org/atri/platodb/store/Store.java:180-194 | The key loop reaches exactly the stop, and the files, of the key walk. |
| StoreOperations.SeekLastKey | src/main/java/org/atri/platodb/store/Store.java:829-850 | The loop to the last key reaches the same posting as the walk to the last key. |
| StoreOperations.ReadBucket | src/main/java/org/atri/platodb/store/Store.java:143-145 | Reads the bucket for a hash code without changing any file. |
| StoreOperations.ReadFirstHashCode | src/main/java/org/atri/platodb/store/Store.java:150-152 | Reads the first hash-code posting of a bucket. |
| StoreOperations.ReadFirstKey | src/main/java/org/atri/platodb/store/Store.java:176-179 | Reads the first key posting of a hash code. |
| StoreOperations.ReadValue | src/main/java/org/atri/platodb/store/Store.java:202-209 | Reads the value posting a key points at. |
| StoreOperations.Store.Get | src/main/java/org/atri/platodb/store/Store.java:139-210 | get returns the value visible for the key at the revision, or null. Its result and files are those of the get function. |
| StoreOperations.Store.GetFromHashCode | src/main/java/org/atri/platodb/store/Store.java:156-210 | The same, from the first hash-code posting on. |
| StoreOperations.Store.Put | src/main/java/org/atri/platodb/store/Store.java:224-650 | put returns the previous value and leaves the files of the put function. |
| StoreOperations.Store.Remove | src/main/java/org/atri/platodb/store/Store.java:662-884 | remove returns the removed value and leaves the files of the remove function. |
| StoreOperations.Store.ContainsKey | src/main/java/org/atri/platodb/store/Store.java:886-954 | containsKey answers as the containsKey function. |
| StoreOperations.Store.Rehash | src/main/java/org/atri/platodb/store/Store.java:997-1080 | rehash leaves the files of the rehash function. |
| StoreOperations.WriteNewValue | src/main/java/org/atri/platodb/store/Store.java:251-282 | Writing the new value posting reserves space and writes it, as the value step of put. |
| StoreOperations.AddBucket | src/main/java/org/atri/platodb/store/Store.java:320-352 | A put into an unused bucket writes the key, a new hash-code posting and the bucket. |
| StoreOperations.AddHashCode | src/main/java/org/atri/platodb/store/Store.java:374-410 | A hash code missing from its chain is appended after the chain's last posting. |
| StoreOperations.AddKey | src/main/java/org/atri/platodb/store/Store.java:443-453 | A key missing from its chain is appended after the chain's last key. |
| StoreOperations.ReplaceFirstKey | src/main/java/org/atri/platodb/store/Store.java:476-506 | Replacing the first key of a chain links the new key in its place and marks the old one deleted. |
| StoreOperations.ReplaceLaterKey | src/main/java/org/atri/platodb/store/Store.java:507-628 | Replacing a later key relinks its predecessor and marks the old one deleted. |
| StoreOperations.ReleaseValue | src/main/java/org/atri/platodb/store/Store.java:633-646 | The old value posting is marked deleted and its payload returned. |
| StoreOperations.PutInBucket | src/main/java/org/atri/platodb/store/Store.java:284-650 | The bucket part of put equals the put function's bucket step. |
| StoreOperations.UnlinkDurably | src/main/java/org/atri/platodb/store/Store.java:829-844 | With durable links, the loop finds the chain's last key and links it to the removed key's partition at the hash-code posting's offset. A copy of the removed key with next (-1, -1) is written there. The files left are those of the durable-unlink function. |
| StoreOperations.Unlink | src/main/java/org/atri/platodb/store/Store.java:788-862 | Unlinking a removed key rewrites the link that pointed at it. |
| StoreOperations.RehashPosting | src/main/java/org/atri/platodb/store/Store.java:1097-1184 | Rehashing one hash-code posting equals the rehash-one function. |
| StoreOperations.RehashOldPartitions | src/main/java/org/atri/platodb/store/Store.java:1026-1076 | The loop over old partitions equals the partitions function and does not touch the metadata. |
| StoreOperations.RehashPartition | src/main/java/org/atri/platodb/store/Store.java:1036-1073 | The posting loop of one old partition equals the postings function. |
| StoreOperations.KeysCursor.Next | src/main/java/org/atri/platodb/store/Store.java:962-979 | One step of the keys cursor answers exactly as the cursor function. It returns the first written posting visible at the revision from its position on, in storage order, or null past the last partition. No file changes. |
| StoreScenarios.GetAtChainHeads | src/main/java/org/atri/platodb/store/Store.java:139-210 | When the bucket, its first hash code and that hash code's first key are all in use and match, get returns that key's value. |
| StoreScenarios.PutNewBucketWrites | src/main/java/org/atri/platodb/store/Store.java:320-352 | A put into an unused bucket leaves:<br>• the bucket in use at the revision;<br>• the bucket pointing at a new hash-code posting;<br>• that posting pointing at the new key.<br>Values, capacity and generation are unchanged. |
| StoreScenarios.PutValueWrites | src/main/java/org/atri/platodb/store/Store.java:251-282 | The value posting reads back at its reserved place. Tables and hash codes are unchanged. |
| StoreScenarios.PutIntoUnusedBucketSteps | src/main/java/org/atri/platodb/store/Store.java:248-352 | A put into an unused bucket is: the value, then the key reservation, then the new bucket. |
| StoreScenarios.PutIntoUnusedBucket | src/main/java/org/atri/platodb/store/Store.java:320-352 | A put into an unused bucket returns null, and afterwards the key is the bucket's only key, holding the value. |
| StoreScenarios.GetOnlyKey | src/main/java/org/atri/platodb/store/Store.java:139-210 | get finds the value of a bucket's only key at every revision from its creation. |
| StoreScenarios.PutIntoUnusedBucketThenGet | src/main/java/org/atri/platodb/store/Store.java:224-352 | After a put into an unused bucket, get at that or any later revision returns the value put. |
| StoreScenarios.PutIntoUnusedBucketThenContains | src/main/java/org/atri/platodb/store/Store.java:886-954 | After that put, containsKey answers true at that or any later revision. |
| StoreScenarios.RemoveFindsOnlyKey | src/main/java/org/atri/platodb/store/Store.java:704-770 | remove's walks stop on the bucket's only hash code and key. |
| StoreScenarios.RemoveOnlyKey | src/main/java/org/atri/platodb/store/Store.java:691-884 | Removing the only key returns its value. It marks the bucket, the hash code, the key and the value deleted at the revision. |
| StoreScenarios.RemoveBeforePut | src/main/java/org/atri/platodb/store/Store.java:703-706 | remove at a revision before the key was put raises NoSuchElement, and opens or writes no file. |
| StoreScenarios.RemoveTwice | src/main/java/org/atri/platodb/store/Store.java:703-706 | A second remove of the same key, at the first remove's revision or later, raises NoSuchElement. The files stay as the first remove left them. |
| StoreScenarios.RemoveAbsentKey | src/main/java/org/atri/platodb/store/Store.java:723-764 | remove of a key that is not in a one-key bucket raises NoSuchElement and opens or writes no file. Another hash code ends at the hash-code chain's end (723-727); another key of the same hash code ends at the key chain's end (761-764). |
| StoreScenarios.GetAfterRemove | src/main/java/org/atri/platodb/store/Store.java:691-884 | After the remove, get before the removal revision still returns the value. From the removal revision on it returns null. |
| StoreScenarios.PutThenRemoveThenGet | src/main/java/org/atri/platodb/store/Store.java:224-884 | put, then remove, then get: remove returns the value put, and get sees it only before the removal revision. |
| StoreScenarios.RehashOnlyPosting | src/main/java/org/atri/platodb/store/Store.java:1107-1130 | Rehashing a store's only hash code copies it to the new partition's first posting. The new table's only bucket points at it. |
| StoreScenarios.RehashOnlyPartition | src/main/java/org/atri/platodb/store/Store.java:1036-1073 | The partition loop rehashes that one posting and then ends. |
| StoreScenarios.RehashOnlyKeyLoop | src/main/java/org/atri/platodb/store/Store.java:1026-1076 | The whole rehash loop amounts to that one rehashed posting. |
| StoreScenarios.RehashLoopFromFirst | src/main/java/org/atri/platodb/store/Store.java:1026 | With one old partition, the loop is that partition's loop. |
| StoreScenarios.RehashOnlyKeyDisk | src/main/java/org/atri/platodb/store/Store.java:997-1080 | After rehash the files are the rehashed posting plus the metadata switched to the new generation. |
| StoreScenarios.RehashMovesOnlyKey | src/main/java/org/atri/platodb/store/Store.java:997-1080 | After rehash the key's bucket in the new generation points at the copied hash-code posting. |
| StoreScenarios.RehashThenGet | src/main/java/org/atri/platodb/store/Store.java:997-1080 | After rehash, get still returns the key's value at every revision from its creation. |
| StoreScenarios.ReserveFresh | src/main/java/org/atri/platodb/store/Accessor.java:266-301 | In partitions whose written postings lie below the next free offset, a reservation never hands out a written offset and keeps every posting. |
| StoreScenarios.PutValueKeepsValues | src/main/java/org/atri/platodb/store/Store.java:251-282 | Writing a new value keeps every existing value posting and never reuses its place. |
| StoreScenarios.KeyReservedFresh | src/main/java/org/atri/platodb/store/Store.java:284-306 | Reserving a key never hands out the place of an existing key, and keeps it. |
| StoreScenarios.ReplaceOnlyKeySteps | src/main/java/org/atri/platodb/store/Store.java:248-628 | A put of an existing key is the value write, then the key reservation, then the replacement. None of these overwrites the old key or value. |
| StoreScenarios.ReplaceReservesApart | src/main/java/org/atri/platodb/store/Store.java:251-306 | The new value and the new key land apart from the old ones, and the old key stays the chain's only key. |
| StoreScenarios.ReplacedAndValueWrites | src/main/java/org/atri/platodb/store/Store.java:476-646 | The replacement returns the old value and leaves the chain head on the new key. In durable mode it leaves the old key after the new one. |
| StoreScenarios.ReplaceOnlyKey | src/main/java/org/atri/platodb/store/Store.java:476-646 | A put of the only key returns its old value and leaves the replacement shape. |
| StoreScenarios.GetAfterReplace | src/main/java/org/atri/platodb/store/Store.java:139-210 | On the replacement shape, get from the replacing revision on returns the new value. Before it, get returns the old value when links are durable, and null otherwise. |
| StoreScenarios.ReplaceThenGet | src/main/java/org/atri/platodb/store/Store.java:224-650 | After a put replaces the only key, get returns the new value from the replacing revision on. Before that it returns the old value with durable links, and null without. |
| RehashHeader.WalkStaysInside | src/main/java/org/atri/platodb/store/Store.java:1132-1140 | A walk through the target partition's chain stays on written postings of that partition. |
| RehashHeader.IntoBucketTidy | src/main/java/org/atri/platodb/store/Store.java:1107-1130 | Taking an empty bucket keeps the target partition's postings below the next write position. |
| RehashHeader.IntoChainTidy | src/main/java/org/atri/platodb/store/Store.java:1132-1180 | Appending to a chain keeps them below it too. |
| RehashHeader.RehashOneTidy | src/main/java/org/atri/platodb/store/Store.java:1097-1184 | Rehashing one posting keeps the target partition tidy at the advanced position. |
| RehashHeader.RehashPostingsTidy | src/main/java/org/atri/platodb/store/Store.java:1036-1073 | The posting loop keeps the target partition tidy. |
| RehashHeader.RehashPartitionsTidy | src/main/java/org/atri/platodb/store/Store.java:1026-1076 | The partition loop keeps the target partition tidy. |
| RehashHeader.RehashWithHeaderKeepsPostingsBelowHeader | src/main/java/org/atri/platodb/store/Store.java:1056-1060 | With the header written back, every rehashed posting lies below the next free offset. The next hash-code reservation in that partition never overwrites one. |
| RehashHeader.RehashLeavesHeaderBehind | src/main/java/org/atri/platodb/store/Store.java:1056-1060 | As written, rehashing a one-key store leaves a posting at offset 1024 of the new partition. The next hash-code reservation hands out that same offset. |
| Locking.MaxSleepCount | src/main/java/org/atri/platodb/store/lock/Lock.java:119 | The number of polls is the timeout divided by the one-second poll interval, rounded down. |
| Locking.Lock.Obtain | src/main/java/org/atri/platodb/store/lock/Lock.java:69-85 | Obtaining a held lock only deepens it. Otherwise the outcome is the underlying obtain, and a success deepens the lock and notifies the listeners. |
| Locking.Lock.Release | src/main/java/org/atri/platodb/store/lock/Lock.java:146-161 | Releasing a nested lock only makes it shallower. The outermost release frees it when the underlying release succeeds, and notifies the listeners. |
| Locking.Lock.ObtainTimeout | src/main/java/org/atri/platodb/store/lock/Lock.java:113-141 | A timeout below -1 is an illegal argument. -1 waits until obtained. A timeout t succeeds iff one of the first t/1000+1 attempts succeeds; otherwise it fails with LockObtainFailed after exactly that many attempts. |
| Locking.Lock.Poll | src/main/java/org/atri/platodb/store/lock/Lock.java:119-140 | The poll loop stops at the first successful attempt. When every attempt within the budget fails, it fails. |
| Locking.Run | src/main/java/org/atri/platodb/store/lock/Lock.java:206-215 | The body's outcome is returned only once the lock is obtained. A failed obtain returns LockObtainFailed, or IllegalArgument for a bad timeout, and releases nothing.<br>When the lock was free on entry and is obtained, it is released once after the body. The release is attempted exactly once, and the depth drops back to its entry value iff that release succeeds. The listeners hear the obtain, then the release if it succeeds.<br>With a timeout, this happens iff some attempt within the allowed polls succeeds.<br>When the lock was already held, the nested hold is released and the depth returns to its entry value. |
| SingleInstance.SingleInstanceLock.DoObtain | src/main/java/org/atri/platodb/store/lock/SingleInstanceLockFactory.java:64-68 | Obtaining succeeds iff the name was not yet taken. Afterwards it is taken. |
| SingleInstance.SingleInstanceLock.DoRelease | src/main/java/org/atri/platodb/store/lock/SingleInstanceLockFactory.java:70-74 | Releasing succeeds iff the name was taken. Afterwards it is free. |
| SingleInstance.SingleInstanceLock.IsLocked | src/main/java/org/atri/platodb/store/lock/SingleInstanceLockFactory.java:76-80 | A lock is locked iff its name is in the shared set. |
| SingleInstance.SingleInstanceLockFactory.MakeLock | src/main/java/org/atri/platodb/store/lock/SingleInstanceLockFactory.java:38-43 | Every lock the factory makes shares the factory's set of held names. |
| SingleInstance.SingleInstanceLockFactory.ClearLock | src/main/java/org/atri/platodb/store/lock/SingleInstanceLockFactory.java:45-51 | Clearing frees the name, and changes nothing when it was free. |
| SingleInstance.Exclusive | src/main/java/org/atri/platodb/store/lock/SingleInstanceLockFactory.java:64-68 | Two locks of the same name from one factory exclude each other. The first obtains, the second fails, and the first still holds. |
| Sequences.InitialFile | src/main/java/org/atri/platodb/store/sequence/FilebasedSequenceManager.java:142-145 | A new sequence file holds the long 1. |
| Sequences.NextValueStep | src/main/java/org/atri/platodb/store/sequence/FilebasedSequenceManager.java:175-184 | nextValue hands out the next value iff it is at most the end (as written). Otherwise it throws NoSuchElement. |
| Sequences.InclusiveRangeOverlapsNext | src/main/java/org/atri/platodb/store/sequence/FilebasedSequenceManager.java:182-184 | As written, a range of size n yields n+1 values, the last being the next reservation's first. |
| Sequences.DrainFrom | src/main/java/org/atri/platodb/store/sequence/FilebasedSequenceManager.java:175-184 | As written, draining a range yields every value from start to end inclusive, then NoSuchElement. |
| Sequences.ExclusiveNextValueStep | src/main/java/org/atri/platodb/store/sequence/FilebasedSequenceManager.java:175-184 | The corrected nextValue hands out a value iff it is below the end. |
| Sequences.ExclusiveRangeYieldsReserved | src/main/java/org/atri/platodb/store/sequence/FilebasedSequenceManager.java:182-184 | Corrected, a range of size n yields exactly its n reserved values and then NoSuchElement. |
| Sequences.ExclusiveDrainFrom | src/main/java/org/atri/platodb/store/sequence/FilebasedSequenceManager.java:175-184 | Corrected, draining from any start yields the values up to the end exclusive. |
| Sequences.LongRange.Size | src/main/java/org/atri/platodb/store/sequence/FilebasedSequenceManager.java:124-132 | The size of a range is end minus start, as a Java int. |
| Sequences.LongRange.NextValue | src/main/java/org/atri/platodb/store/sequence/FilebasedSequenceManager.java:175-180 | Returns a value iff hasNextValue held, and steps the range as NextValueStep says. |
| Sequences.StoredLong | src/main/java/org/atri/platodb/store/sequence/FilebasedSequenceManager.java:151-163 | The long written back at offset 0 reads back as the reserved end, wrapped as a Java long. |
| Sequences.LongSequence.Reserve | src/main/java/org/atri/platodb/store/sequence/FilebasedSequenceManager.java:151-163 | A reservation starts at the stored value and ends at that value plus the requested size. The stored value advances to that end. A file shorter than eight bytes fails. |
| Sequences.FilebasedSequenceManager.SequenceFactory | src/main/java/org/atri/platodb/store/sequence/FilebasedSequenceManager.java:61-67 | Only long sequences are supported. Any other type is an unsupported operation. |
| Sequences.FilebasedSequenceManager.GetOrRegisterSequence | src/main/java/org/atri/platodb/store/sequence/FilebasedSequenceManager.java:47-59 | A registered name returns its sequence unchanged. A new one is created and registered. |
| Sequences.FilebasedSequenceManager.Reserve | src/main/java/org/atri/platodb/store/sequence/FilebasedSequenceManager.java:43-45 | Reserving on an unregistered name fails with a null pointer. Otherwise the named sequence advances by the requested size. |
| KeyCodec.Unsigned | src/main/java/org/atri/platodb/Benchmark.java:206-213 | Reading a Java byte as `b & 0xFF` gives its unsigned value. |
| KeyCodec.ToByteArray | src/main/java/org/atri/platodb/Benchmark.java:198-204 | The four bytes are the low 32 bits of the long, big-endian. |
| KeyCodec.ToLong | src/main/java/org/atri/platodb/Benchmark.java:206-213 | The long read is the big-endian unsigned value of the first four bytes. An array shorter than four bytes throws. |
| KeyCodec.ToLongRange | src/main/java/org/atri/platodb/Benchmark.java:206-213 | The long read is always between 0 and 2^32. |
| StoreScenarios.CursorReadsLaidOutInOrder | src/main/java/org/atri/platodb/store/Store.java:962-976 | Take a key partition whose postings lie back to back from its first posting, all written and visible at the revision. next() returns them one by one in storage order, then null once the next partition does not exist. |
| StoreScenarios.CursorReturnsKeysInPutOrder | src/test/java/org/atri/platodb/store/TestCursor.java:47-60 | Four keys laid out as four puts at revision 0 leave them: a new cursor returns them in put order, then null. |
| KeyCodec.KeyRoundTrip | src/main/java/org/atri/platodb/Benchmark.java:198-213 | toLong(toByteArray(l)) is l modulo 2^32. It is l itself exactly for longs in [0, 2^32). |

## Left out

- **Missing sources.** HashCodesPartition.java and KeysPartition.java are not part of this model. Posting sizes are taken as the sum of their field widths: 41 bytes for a hash-code posting, and 45 bytes plus the key for a key posting. Their headers are taken to be the values-partition header.
- **The byte level stops at the file handlers.** Store-level files are maps from offset to posting, so two postings that overlap in bytes are not modelled.
- **Reads and formatting.** Reading an offset where nothing was written gives the all-zero posting, as on a zero-filled formatted file. End of file past the formatted size is not modelled at the store level.
- **Chains are walked with a fuel bound.** Running out of fuel is a distinct `Diverges` error. The imperative operations require that it does not occur, so a cyclic or dangling chain, where the Java code loops forever, is excluded rather than modelled.
- **Locks and the store.** `put`, `remove` and `rehash` run their bodies under the store write lock. The model leaves the lock out of the store operations and models it separately, in `Locking`.
  - The sleep between polls is not modelled.
  - `doObtain` and `doRelease` of an arbitrary lock are oracles: sequences of answers.
  - A wait of -1 requires that the oracle eventually grants; otherwise the Java loop never ends.
- **Read-only accessors, concurrency between accessors, and the accessor pool lifecycle** (`borrowAccessor`, `returnAccessor`, `open`, `close`).
- **Integer widths.** Ids and offsets are unbounded integers in the store model. Only revisions, the value-posting count and the sequence values wrap as Java longs.
- **StoreAccessor.Accessor.GetHashtable:** the half-opened hashtable object that Java keeps after a failed open is not modelled.
- **StoreAccessor.ReserveKeepsBalance** assumes that the partition after the current one does not exist yet, as the store guarantees by only ever moving forward.
- **The whole-operation lemmas cover particular shapes.**
  - Put then get: a bucket never used.
  - Remove then get: a bucket with one key.
  - Replace then get: one key, in partitions whose written postings lie below the next free offset.
  - Rehash then get: a store with a single hash code in partition 0.
- **StoreScenarios.GetAfterReplace** covers a chain of one key only, not longer chains.
- **StoreSpec.Replaced** states only what a replacement leaves unchanged. How it relinks the chain is proved for a chain of one key, by `StoreScenarios.ReplaceOnlyKey`.
- **StoreSpec.DurablyUnlinked** does not state, in its contract, that the chain's last key is linked to the copy.
- **StoreSpec.PutIntoBucket** and **StoreSpec.PutSpec** state what a put leaves unchanged. What it writes is proved by the whole-operation lemmas, for the shapes listed above.
- **StoreScenarios.CursorReturnsKeysInPutOrder** starts from a key partition laid out as four puts into a new store leave it. That four puts do leave it so is not proved.
- **The lock around the sequence file.** `Lock.With` guards the sequence file's creation and `reserve` (`FilebasedSequenceManager.java:96-107, 152-160`). The sequence model leaves that lock out; `Locking` models the lock itself.
- **Code modelled as written even though it looks unintended.** These are not separate findings, because no wrong result follows within the shapes proved.
  - The replacement resets the next offset twice and never the next partition (`Store.java:602-603`).
  - Compacting the chain head leaves the next pointer at -1.
  - The key walk in put reopens the partition by the next pointer (`Store.java:456-460`).
  - Chain postings appended during rehash get created revision 0 (`Store.java:1152-1158`).
  - An empty value is stored as the pointer (-1, -1).
  - Offsets of one file are used in another. The hash-code posting's offset is used as a key-partition offset (`Store.java:524, 553, 839, 844`). The bucket's offset is used as a hash-code-partition offset (`Store.java:558`).
  - Removing the first key of a chain whose hash code heads the bucket marks the hash code and the bucket deleted, and never relinks the first-key pointer to the next key (`Store.java:788-808`).
  - A durable remove writes the removed key's copy with next (-1, -1), then links the previous key to that (-1, -1). This cuts the keys after the removed one from the chain (`Store.java:842-857`).
  - The key walk in remove switches to the next posting's partition before it records the previous posting, so the previous posting's partition is taken to be the next one's (`Store.java:766-770`).
- **Not modelled:**
  - the entity layer above the store;
  - serialization and marshalling;
  - UnsafeSequenceManager;
  - the Configuration getters;
  - `optimize`, which is empty;
  - Benchmark's timing and buffers.

## Findings

| source | as written | input that shows it | evidently intended | confidence | as-written member | corrected member |
|---|---|---|---|---|---|---|
| src/main/java/org/atri/platodb/store/sequence/FilebasedSequenceManager.java:182-184 | `hasNextValue` compares with `<=`, so a range reserved for n values hands out n+1: its end value is also the first value of the next reservation. | reserve(1) on a new sequence gives start 1 and end 2. The range yields 1, then 2; the next reservation also starts at 2. | compare with `<`, so a range yields exactly its n reserved values | not executed | Sequences.InclusiveRangeOverlapsNext | Sequences.ExclusiveRangeYieldsReserved |
| src/main/java/org/atri/platodb/store/Store.java:1056-1060 | rehash advances the target partition's in-memory header but never writes it back. The partition's stored next free offset stays at 1024 while rehashed postings already occupy it. | A store with one hash code in partition 0, rehashed to capacity 8: the rehashed posting lands at offset 1024 of partition 1. The next hash-code reservation there is again offset 1024, so the next new hash code overwrites it. | write the target header back after the loop, so later reservations start after the rehashed postings | not executed | RehashHeader.RehashLeavesHeaderBehind | RehashHeader.RehashWithHeaderKeepsPostingsBelowHeader |
