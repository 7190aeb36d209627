# GVDB in Dafny

A verified model of the core of the `gvdb` crate. GVDB, the GVariant database, is the
read-only hash-table file format that GLib uses for GResource bundles and dconf
databases. A file has a 24-byte header and chunks of data. Each chunk is found through a
32-bit pointer. A hash table chunk holds the following, in order:

- a bloom filter, which is carried over as-is;
- bucket start indices;
- 24-byte hash items, each with a djb hash, a parent index, a key pointer, a type byte
  and a value pointer.

Keys with a path separator form a tree: an item stores only the last part of its key and
points to its parent container.

The model covers:

- **The djb hash** (`GvdbUtil`), as a specification function and as a loop method that
  wraps at 32 bits.
- **The reader** (`Endian`, `ReadPointer`, `ReadSlice`, `ReadHeader`, `ReadHashItem`,
  `ReadFile`, `ReadHash`):
  - the header and its signature checks;
  - byte-swapped files;
  - pointer dereference with its alignment and range checks;
  - the checks `for_bytes` makes on a table;
  - the bloom filter;
  - lookup through a bucket range and the parent chain;
  - rebuilding every full key with `get_names`.
- **The writer** (`WriteItem`, `WriteHash`, `WriteBuilder`, `WriteIndexing`,
  `WriteLayout`, `WriteFile`):
  - a chained hash table that is updated in place;
  - the builder that creates one container per key prefix;
  - chunk allocation at aligned offsets;
  - the table layout;
  - serialisation into bytes.

  `WriteRead` proves that the reader accepts what the writer writes. The file opens, and
  its root table passes `for_bytes`. Every key is found with its value and its type, no
  other key is found, and `get_names` lists exactly the keys.
- **GResource** (`GResourceXml`, `GResourceBundle`):
  - the manifest's boolean and `preprocess` attributes;
  - the key of each manifest file;
  - the directory scan's skip, compress and strip rules;
  - preprocessing;
  - the `(uuay)` entries of a bundle, sorted by key.
- **The `no_glib` GVariant implementation** (`VariantType`, `VariantSubtype`,
  `VariantTypeLength`, `VariantTypeInfo`, `VariantValue`, `VariantTuple`, `VariantImpl`):
  - the type-string grammar and its nesting limit;
  - subtyping;
  - `string_length`;
  - the alignment and fixed size of a type;
  - normal-form serialisation of arrays, tuples and boxed variants, with their end
    offsets;
  - taking containers apart again;
  - the scalar, boolean and string conversions.

The host's byte order is a parameter wherever the source asks the target platform. Payload
values are opaque byte strings, as their encoder produces them. Where the `no_glib` code
departs from the GVariant format, the model keeps two versions side by side. One follows
the code as written, and the other follows the evident intent. Lemmas relate the two (see
"## Findings").

## Model

| member | source | states |
|---|---|---|
| Endian.Not | gvdb/src/endian.rs:36-44 | negating an order gives the other order |
| Endian.NotInvolution | gvdb/src/endian.rs:36-44 | negating twice gives the order back |
| Endian.NotIsTheOtherOrder | gvdb/src/endian.rs:59-66 | `!Little == Big` and `!Big == Little`, as the `not` test checks |
| Endian.ByteswapIsNotNative | gvdb/src/endian.rs:20-33 | on either host, an order is byte-swapped exactly when it is not native; the native order is native and its negation swapped |
| Endian.FromLeToLe | gvdb/src/read/header.rs:53 | reading back a word stored with `to_le` gives the word, on either host |
| Endian.ToLeImage | gvdb/src/read/header.rs:53 | a field holding `x.to_le()` has the little-endian bytes of x in memory on every host |
| Endian.NativeRoundTrip | gvdb/src/read/header.rs:14-19 | a native word read back from its own memory image on the same host is unchanged |
| Endian.NativeRoundTripBytes | gvdb/src/read/header.rs:14-19 | four bytes read as a native word and stored again are unchanged |
| Endian.CrossHostRead | gvdb/src/read/header.rs:59-72 | a native word written by one host and read by a host of the other order comes out byte-swapped |
| ReadPointer.New | gvdb/src/read/pointer.rs:11-16 | start and end are kept when they fit in 32 bits (they are truncated otherwise) |
| ReadPointer.Size | gvdb/src/read/pointer.rs:26-28 | start + size == end for a well-ordered pointer, and size 0 when start lies past end |
| ReadPointer.NullIsEmpty | gvdb/src/read/pointer.rs:11-16 | the NULL pointer is (0, 0), has size 0 and is what `new(0, 0)` builds |
| ReadPointer.ReversedPointerHasSizeZero | gvdb/src/read/pointer.rs:52-56 | `Pointer::new(100, 0).size()` is 0 and does not panic |
| ReadPointer.MemoryImageIsEncode | gvdb/src/read/pointer.rs:3-6 | the stored bytes of a pointer (little-endian words) are the same on every host |
| ReadPointer.DecodeEncode | gvdb/src/read/pointer.rs:3-6 | decoding a pointer's 8 bytes gives the pointer back |
| ReadPointer.EncodeDecode | gvdb/src/read/pointer.rs:3-6 | every 8 bytes are the image of the pointer they decode to |
| ReadSlice.Get | gvdb/src/read/slice.rs:6-8 | `get` gives a value exactly for an index below the length, and that value's little-endian bytes are the group at the index |
| ReadSlice.GetFromValues | gvdb/src/read/slice.rs:6-17 | reading a slice made of `to_le_bytes` images gives back value i for every index in range and None past it; the slice is empty exactly when there are no values |
| ReadSlice.GetWeights | gvdb/src/read/slice.rs:6-8 | the value of a group is its four bytes weighted 1, 256, 65536, 16777216 |
| GvdbUtil.FromLeOfLeBytes | gvdb/src/write/file.rs:431 | the little-endian bytes of a value that fits in n bytes read back as the value |
| GvdbUtil.LeBytesOfFromLe | gvdb/src/read/slice.rs:6-8 | any bytes are the little-endian image of the value they read as |
| GvdbUtil.LeBytes32RoundTrip | gvdb/src/write/file.rs:431 | `u32::from_le_bytes(u32::to_le_bytes(x)) == x` |
| GvdbUtil.FromLe32RoundTrip | gvdb/src/read/slice.rs:6-8 | `u32::to_le_bytes(u32::from_le_bytes(b)) == b` for 4 bytes |
| GvdbUtil.ReverseReverse | gvdb/src/read/header.rs:48 | reversing bytes twice gives them back |
| GvdbUtil.Swap32Image | gvdb/src/read/header.rs:48 | the bytes of `swap_bytes(x)` are the bytes of x reversed |
| GvdbUtil.Swap32Involution | gvdb/src/read/header.rs:62-63 | swapping a word's bytes twice gives the word back |
| GvdbUtil.AlignOffset | gvdb/src/write/file.rs:352 | the aligned offset is a multiple of the alignment, not below the offset and less than one alignment above it |
| GvdbUtil.AlignOffsetLeast | gvdb/src/write/file.rs:352 | the aligned offset is the least multiple of the alignment that is not below the offset |
| GvdbUtil.DjbFoldAppend | src/gvdb/util.rs:2-9 | hashing a concatenation continues the fold from the hash of the first part |
| GvdbUtil.DjbHashEmpty | src/gvdb/util.rs:3 | the hash of the empty key is 5381 |
| GvdbUtil.DjbHashSnoc | src/gvdb/util.rs:4-6 | one more byte performs exactly one wrapping `* 33 + byte` modulo 2^32 |
| GvdbUtil.DjbHashLoop | src/gvdb/util.rs:2-9 | the loop of `djb_hash` computes the fold `DjbHash` of the key's bytes |
| GvdbUtil.BucketOf | gvdb/src/write/hash.rs:38-40 | the bucket of a hash is below the number of buckets |
| ReadHeader.New | gvdb/src/read/header.rs:44-57 | the header has options 0, the given root, and a version that reads back as the version on that host |
| ReadHeader.SignatureBytes | gvdb/src/read/header.rs:5-10 | the signature words' little-endian bytes spell "GVar" and "iant" |
| ReadHeader.SwappedSignatures | gvdb/src/read/header.rs:48 | the byte-swapped signature words' values |
| ReadHeader.IsByteswap | gvdb/src/read/header.rs:59-72 | Ok(false) exactly for the plain signature, Ok(true) exactly for both words swapped, an error otherwise |
| ReadHeader.IsByteswapOfNew | gvdb/src/read/header.rs:44-72 | a header built for a byte order reports that order and is valid |
| ReadHeader.VersionZero | gvdb/src/read/header.rs:52-80 | the stored version reads as 0 exactly when 0 was passed in, on either host |
| ReadHeader.Fields | gvdb/src/read/header.rs:14-19 | the five fields of the header's bytes sit at offsets 0, 4, 8, 12 and 16 |
| ReadHeader.DecodeEncode | gvdb/src/read/header.rs:14-19 | decoding a header's 24 bytes on the same host gives the header back |
| ReadHeader.ReadOnOtherHost | gvdb/src/read/header.rs:44-72 | a header written on one host and read on another reports a swapped file exactly when the byteswap flag and the hosts' difference disagree |
| ReadHeader.MinimalHeaderBytes | gvdb/src/read/header.rs:100-112 | the header of the smallest file is "GVariant" followed by 16 zero bytes |
| ReadHeader.MinimalHeaderBytesOnBigEndianHost | gvdb/src/read/header.rs:44-57 | a big-endian host writing a little-endian file produces the same 24 bytes |
| ReadHeader.SameFieldBytes | gvdb/src/read/header.rs:14-19 | headers whose fields occupy the same bytes encode to the same bytes |
| ReadHeader.BigEndianSignatureBytes | gvdb/src/read/header.rs:44-57 | a byte-swapped file written on a little-endian host starts with the big-endian signature bytes |
| ReadHashItem.TypeFromByte | gvdb/src/read/hash_item.rs:23-37 | a type exactly for the bytes 'v', 'H' and 'L', and the type converts back to that byte |
| ReadHashItem.TypeRoundTrip | gvdb/src/read/hash_item.rs:13-37 | converting a type to its byte and back gives the type |
| ReadHashItem.TypeToByteInjective | gvdb/src/read/hash_item.rs:13-20 | distinct types have distinct bytes |
| ReadHashItem.New | gvdb/src/read/hash_item.rs:70-89 | the record keeps hash, parent, value and key start, has unused 0 and the type's byte, and keeps the key size when it is below 64 KiB |
| ReadHashItem.KeyPtrOfNew | gvdb/src/read/hash_item.rs:70-116 | a well-ordered key range shorter than 64 KiB and the type come back from the record |
| ReadHashItem.KeyPtrOfNewTruncates | gvdb/src/read/hash_item.rs:78-112 | a key of exactly 64 KiB comes back with size 0 (the `as u16` truncation) |
| ReadHashItem.DecodeEncode | gvdb/src/read/hash_item.rs:54-65 | decoding a record's 24 bytes gives the record back |
| ReadHashItem.EncodeDecode | gvdb/src/read/hash_item.rs:54-65 | every 24 bytes are the image of the record they decode to |
| ReadFile.Dereference | gvdb/src/read/file.rs:106-118 | an offset error exactly for a reversed pointer or an aligned one past the end; an alignment error exactly for a misaligned start; otherwise the designated bytes |
| ReadFile.DereferenceExamples | gvdb/src/read/file.rs:414-451 | the four dereference tests: past the end, reversed, misaligned, and in bounds |
| ReadFile.GetHeader | gvdb/src/read/file.rs:89-96 | an offset error exactly when the data is shorter than the 24-byte header |
| ReadFile.ReadFileHeader | gvdb/src/read/file.rs:120-138 | a validated file keeps its data unchanged |
| ReadFile.FromBytesSpec | gvdb/src/read/file.rs:141-150 | `from_bytes` succeeds exactly for data of at least 24 bytes whose header has a known signature and version 0; the data is kept and the byte order is the header's; shorter data is an offset error |
| ReadFile.FromBytesRejectsSignature | gvdb/src/read/file.rs:262-268 | an unknown signature is rejected with the invalid-header data error |
| ReadFile.FromBytesRejectsVersion | gvdb/src/read/file.rs:271-276 | a valid signature with a version other than 0 is rejected with a data error |
| ReadFile.ZvariantEndianess | gvdb/src/read/file.rs:193-201 | the payload order is little endian exactly when a little-endian host reads a plain file or a big-endian host a swapped one |
| ReadFile.ZvariantEndianessIsHostOrSwapped | gvdb/src/read/file.rs:193-201 | the payload order is the host's, negated when the file is byte-swapped |
| ReadFile.MinimalFileOpens | gvdb/src/read/file.rs:296-314 | the 24-byte file holding only the smallest header opens, not byte-swapped |
| ReadHash.NewHashHeader | gvdb/src/read/hash.rs:35-43 | the header reads back its bloom word count and bucket count, with the bloom shift in the top five bits |
| ReadHash.HashHeaderRoundTrip | gvdb/src/read/hash.rs:22-28 | decoding a hash header's 8 bytes gives it back |
| ReadHash.HashHeaderBytesRoundTrip | gvdb/src/read/hash.rs:22-28 | every 8 bytes are the image of the hash header they decode to |
| ReadHash.HashHeaderOf | gvdb/src/read/hash.rs:127-133 | an offset error exactly when fewer than 8 bytes are given |
| ReadHash.ForBytes | gvdb/src/read/hash.rs:89-124 | a table it returns is valid, on the given pointer and file, with the header its first 8 bytes hold |
| ReadHash.ForBytesSpec | gvdb/src/read/hash.rs:89-124 | `for_bytes` succeeds exactly when the pointer dereferences with alignment 4, holds the header, and what follows the buckets is a whole number of 24-byte items; each failure gives its own error (dereference error, offset, not enough bytes, remaining size invalid) |
| ReadHash.TableData | gvdb/src/read/hash.rs:136-138 | the table's bytes are as long as its pointer's range and hold at least the header, bloom words and buckets |
| ReadHash.NHashItems | gvdb/src/read/hash.rs:224-227 | the items fill exactly the rest of the table after the buckets |
| ReadHash.GetU32 | gvdb/src/read/hash.rs:146-152 | a word exactly when four bytes are in range, and its little-endian bytes are those four |
| ReadHash.GetBloomWord | gvdb/src/read/hash.rs:173-180 | a word exactly for an index below the number of bloom words |
| ReadHash.BloomFilter | gvdb/src/read/hash.rs:188-200 | a table without bloom words lets every hash through |
| ReadHash.GetHash | gvdb/src/read/hash.rs:213-216 | every bucket below the bucket count can be read |
| ReadHash.DecodeItemsIndex | gvdb/src/read/hash.rs:235-242 | item i is the record decoded from bytes 24i to 24i + 24 of the item section |
| ReadHash.GetHashItemForIndex | gvdb/src/read/hash.rs:235-242 | an item exactly for an index below the item count, and it is the item at that index; an offset error otherwise |
| ReadHash.GetKey | gvdb/src/read/hash.rs:322-325 | a key exactly when the key pointer dereferences with alignment 1 and the bytes are UTF-8 |
| ReadHash.CheckName | gvdb/src/read/hash.rs:293-319 | an item whose key cannot be read, or whose parent lies past the items, never matches |
| ReadHash.CheckNameStep | gvdb/src/read/hash.rs:302-316 | a name that ends with the item's key and has a parent in range is checked as the rest of the name against the parent |
| ReadHash.NamedAsStep | gvdb/src/read/hash.rs:293-319 | an item named by a key has a readable key that ends the name and a parent in range named by the rest |
| ReadHash.CheckNameSound | gvdb/src/read/hash.rs:293-319 | when `check_name` accepts, the key is the item's chain of parent keys |
| ReadHash.CheckNameComplete | gvdb/src/read/hash.rs:293-319 | when the key is the item's chain of non-empty parent keys, `check_name` accepts |
| ReadHash.BucketRange | gvdb/src/read/hash.rs:338-348 | a bucket's item range ends within the items |
| ReadHash.Scan | gvdb/src/read/hash.rs:350-359 | the scan only fails with key not found |
| ReadHash.ScanSound | gvdb/src/read/hash.rs:350-359 | an item the scan returns lies in the range and matches hash, name and key |
| ReadHash.ScanFindsFirst | gvdb/src/read/hash.rs:350-359 | the scan returns the first matching item of the range |
| ReadHash.ScanSkips | gvdb/src/read/hash.rs:350-359 | a non-matching item is skipped |
| ReadHash.Lookup | gvdb/src/read/hash.rs:328-360 | only key not found is an error, and a table with no buckets or no items finds nothing |
| ReadHash.LookupSound | gvdb/src/read/hash.rs:328-360 | a found item has the key's hash, passes `check_name` and the bloom filter, and lies in the key's bucket |
| ReadHash.LookupFinds | gvdb/src/read/hash.rs:328-360 | the first matching item of the key's bucket is found when the bloom filter lets the hash through |
| ReadHash.LookupIsScan | gvdb/src/read/hash.rs:328-360 | past the empty-table and bloom checks, lookup is the scan of the key's bucket |
| ReadHash.GetBucketRange | gvdb/src/read/hash.rs:338-348 | the method computes the bucket's range |
| ReadHash.ScanLoop | gvdb/src/read/hash.rs:350-359 | the loop computes the scan |
| ReadHash.GetHashItem | gvdb/src/read/hash.rs:328-360 | the method computes the lookup |
| ReadHash.GetBytes | gvdb/src/read/hash.rs:363-375 | the bytes of a found value item, dereferenced with alignment 8; lookup errors pass through; another item type gives a not-a-value error |
| ReadHash.GetHashTable | gvdb/src/read/hash.rs:378-390 | a valid table on the same file at a found table item's value pointer; lookup errors pass through; another item type gives a not-a-hash-table error |
| ReadHash.FileHashTable | gvdb/src/read/file.rs:99-103 | the root table of a file: an offset error for a file without a header, otherwise a valid table at the header's root pointer |
| ReadHash.MinimalFileHasNoTable | gvdb/src/read/file.rs:296-314 | the smallest file, whose root is NULL, has no readable root table |
| ReadHash.CountSomeUpdate | gvdb/src/read/hash.rs:261-270 | filling an empty slot of the names adds one to the count of filled slots |
| ReadHash.CountSomeFull | gvdb/src/read/hash.rs:287 | when all slots are counted filled, every slot is filled |
| ReadHash.NamesPass | gvdb/src/read/hash.rs:253-281 | a pass over the items keeps the names' length and counts the filled slots, never fewer than before |
| ReadHash.NamesLoop | gvdb/src/read/hash.rs:250-290 | the outer loop's names have one entry per item |
| ReadHash.UpdateKeepsConsistent | gvdb/src/read/hash.rs:258-272 | resolving one item keeps every filled name equal to its parent's name followed by its key |
| ReadHash.NamesPassResolves | gvdb/src/read/hash.rs:258-272 | a resolvable item is named and the pass goes on with one more name |
| ReadHash.NamesPassSkips | gvdb/src/read/hash.rs:258-278 | an item that cannot be resolved yet is skipped |
| ReadHash.NamesPassConsistent | gvdb/src/read/hash.rs:253-281 | a pass keeps the names consistent |
| ReadHash.NamesLoopConsistent | gvdb/src/read/hash.rs:250-290 | the whole loop keeps the names consistent |
| ReadHash.NamesSpec | gvdb/src/read/hash.rs:245-290 | when `get_names` succeeds, there is one name per item: a root item's key, or its parent's name followed by its key |
| ReadHash.NamesRejectsBadParent | gvdb/src/read/hash.rs:245-290 | an item whose parent lies at or past the item count makes `get_names` fail |
| ReadHash.PassHitsBadParent | gvdb/src/read/hash.rs:273-278 | a pass that reaches an unnamed item whose parent lies past the count fails with that parent's offset |
| ReadHash.NamesInvalidParentOffset | gvdb/src/read/file.rs:359-384 | an item whose parent lies past the count, with only readable items before it, gives the invalid-parent-offset error |
| ReadHash.GetNames | gvdb/src/read/hash.rs:245-290 | the method computes `Names` |
| ReadHash.ResolvePass | gvdb/src/read/hash.rs:253-281 | the inner loop computes one pass |
| ReadHash.ResolveAt | gvdb/src/read/hash.rs:254-279 | one step of the inner loop advances the pass or returns its error |
| WriteItem.Typ | gvdb/src/write/item.rs:45-55 | a value, a table builder and a container have the value, hash-table and container types, one each |
| WriteItem.TypByteIsReadable | gvdb/src/write/item.rs:45-55 | the byte written for an item's type reads back as that type |
| WriteItem.TableBuilderOf | gvdb/src/write/item.rs:87-92 | the builder exactly for a table-builder value |
| WriteItem.ContainerOf | gvdb/src/write/item.rs:94-99 | the children exactly for a container value |
| WriteItem.DefaultIsEmptyContainer | gvdb/src/write/item.rs:32-35 | the default value is an empty container and not a table builder |
| WriteItem.HashItemBuilder.constructor | gvdb/src/write/item.rs:137-148 | a new item has its key, hash and value, no parent and the unassigned index u32::MAX |
| WriteItem.HashItemBuilder.SetAssignedIndex | gvdb/src/write/item.rs:182-184 | sets the index and leaves value and parent alone |
| WriteItem.HashItemBuilder.SetParent | gvdb/src/write/item.rs:170-176 | sets the parent and leaves value and index alone |
| WriteItem.HashItemBuilder.TakeValue | gvdb/src/write/item.rs:162-168 | returns the value and leaves the default in its place |
| WriteHash.FindInChain | gvdb/src/write/hash.rs:99-117 | the position of the first item with the key in a chain, or None exactly when no item has it |
| WriteHash.LookupIn | gvdb/src/write/hash.rs:120-124 | a found item has the key and sits in the key's bucket |
| WriteHash.PushedFinds | gvdb/src/write/hash.rs:45-74 | after an insert the bucket's chain finds the new item for its key |
| WriteHash.PushedKeepsOthers | gvdb/src/write/hash.rs:45-74 | an insert leaves what the chain finds for every other key unchanged |
| WriteHash.PushedLength | gvdb/src/write/hash.rs:50-71 | an insert replaces the head when it has the same key and otherwise grows the chain by one |
| WriteHash.Unlinked | gvdb/src/write/hash.rs:84-90 | unlinking an item shortens the chain by one |
| WriteHash.UnlinkedLookup | gvdb/src/write/hash.rs:78-96 | after a removal the key is looked up among the items behind the removed one, and every other key is found as before |
| WriteHash.UnlinkedFind | gvdb/src/write/hash.rs:78-96 | removing the first item with a key leaves the key to the items behind it |
| WriteHash.UnlinkedFindOther | gvdb/src/write/hash.rs:78-96 | removing the first item with its key leaves lookups of other keys unchanged |
| WriteHash.TotalLenUpdate | gvdb/src/write/hash.rs:66-70 | replacing one chain changes the item total by the difference of their lengths |
| WriteHash.Flatten | gvdb/src/write/hash.rs:186-215 | the iteration order has one entry per item |
| WriteHash.FlattenSpec | gvdb/src/write/hash.rs:186-215 | every item of every bucket appears in the iteration, tagged with its bucket, and every entry is an item of its bucket |
| WriteHash.SimpleHashTable.WithNBuckets | gvdb/src/write/hash.rs:17-25 | n empty buckets and no items |
| WriteHash.SimpleHashTable.HashBucket | gvdb/src/write/hash.rs:38-40 | the bucket is below the bucket count |
| WriteHash.SimpleHashTable.Lookup | gvdb/src/write/hash.rs:120-124 | a found item has the key and sits in the key's bucket |
| WriteHash.SimpleHashTable.Insert | gvdb/src/write/hash.rs:45-74 | a fresh item with the key, its hash and the value heads the key's bucket, replacing a head with the same key; the count grows unless it replaced; lookup finds the new item and every other key as before |
| WriteHash.SimpleHashTable.GetFromBucket | gvdb/src/write/hash.rs:99-117 | None for a bucket out of range; otherwise the first item with the key and the item before it, found exactly when the chain holds the key |
| WriteHash.SimpleHashTable.Get | gvdb/src/write/hash.rs:120-124 | the method computes the lookup |
| WriteHash.SimpleHashTable.Remove | gvdb/src/write/hash.rs:78-96 | true exactly when the key's bucket holds the key; the first such item is unlinked and the count drops by one; otherwise nothing changes |
| WriteHash.SimpleHashTable.Iter | gvdb/src/write/hash.rs:127-133 | a fresh iterator at the start of the table |
| WriteHash.SimpleHashTable.IterBucket | gvdb/src/write/hash.rs:136-142 | a fresh iterator at the start of one bucket |
| WriteHash.SimpleHashTableIter.Next | gvdb/src/write/hash.rs:186-215 | yields the table's entries in bucket order, each once, then None |
| WriteHash.SimpleHashTableBucketIter.Next | gvdb/src/write/hash.rs:155-173 | yields the bucket's items in chain order, then None |
| WriteHash.ChainItemsPush | gvdb/src/write/hash.rs:45-74 | an insert adds the new item to the table's items and nothing else |
| WriteHash.ChainItemsAreEntries | gvdb/src/write/hash.rs:186-215 | every item of the table is yielded by the iteration |
| WriteBuilder.IndexOf | gvdb/src/write/file.rs:70 | the position of the first occurrence of the separator |
| WriteBuilder.JoinSplit | gvdb/src/write/file.rs:70-75 | joining the segments of `key.split(sep)` with the separator gives the key back |
| WriteBuilder.JoinAt | gvdb/src/write/file.rs:70-75 | a join splits at any segment boundary into the two joins around one separator |
| WriteBuilder.Path | gvdb/src/write/file.rs:70-105 | the keys the segment loop visits end with the key itself |
| WriteBuilder.Ancestors | gvdb/src/write/file.rs:70-75 | the first k visited keys are the joins of the first segments, each followed by the separator |
| WriteBuilder.PathAt | gvdb/src/write/file.rs:70-75 | visited key j is ancestor j, and the last one is the key |
| WriteBuilder.PathSpec | gvdb/src/write/file.rs:70-105 | every visited key is a prefix of the key; every one before the last is shorter, non-empty and ends with the separator; they grow strictly |
| WriteBuilder.AncestorIsPrefix | gvdb/src/write/file.rs:70-75 | each ancestor with its separator is a proper prefix of the key |
| WriteBuilder.AddChild | gvdb/src/write/file.rs:77-93 | an error exactly when the parent exists and is not a container; otherwise the parent is a container listing the child, created if missing, and every other item is unchanged |
| WriteBuilder.WalkFails | gvdb/src/write/file.rs:77-100 | the walk fails exactly when some visited ancestor exists and is not a container |
| WriteBuilder.WalkLinks | gvdb/src/write/file.rs:77-100 | after a successful walk each visited key is a container listing the next one |
| WriteBuilder.InsertAlongSpec | gvdb/src/write/file.rs:60-108 | fails exactly when an ancestor exists and is not a container; on success the key holds the value and every ancestor is a container listing the next key; keys off the path are unchanged |
| WriteBuilder.InsertSpec | gvdb/src/write/file.rs:60-108 | the same for `insert_item_value` with a separator: failure exactly at a non-container ancestor, the value at the key, containers linking the path, nothing else changed |
| WriteBuilder.InsertWithoutSeparator | gvdb/src/write/file.rs:104-105 | without a separator the value is stored at the key and nothing else changes |
| WriteBuilder.SplitOfNestedKey | gvdb/src/write/file.rs:70 | "a/b/c" splits into "a", "b" and "c" |
| WriteBuilder.PathOfNestedKey | gvdb/src/write/file.rs:70-75 | the loop visits "a/", "a/b/" and "a/b/c" |
| WriteBuilder.InsertNestedKey | gvdb/src/write/file.rs:60-108 | inserting "a/b/c" into an empty builder creates containers "a/" listing "a/b/" and "a/b/" listing "a/b/c" |
| WriteBuilder.PathOfChildKey | gvdb/src/write/file.rs:70-75 | the loop visits "a/" and "a/b" |
| WriteBuilder.InsertBelowValueFails | gvdb/src/write/file.rs:84-89 | inserting "a/b" below a value at "a/" is a consistency error and leaves the items unchanged |
| WriteBuilder.HashTableBuilder.constructor | gvdb/src/write/file.rs:42-44 | no items and the separator "/" |
| WriteBuilder.HashTableBuilder.WithPathSeparator | gvdb/src/write/file.rs:52-57 | no items and the given separator |
| WriteBuilder.HashTableBuilder.Snapshot | gvdb/src/write/file.rs:204-211 | the builder as a table-builder value, holding its items and separator |
| WriteBuilder.HashTableBuilder.Len | gvdb/src/write/file.rs:214-216 | the number of keys |
| WriteBuilder.HashTableBuilder.IsEmpty | gvdb/src/write/file.rs:219-221 | true exactly when there are no keys |
| WriteBuilder.HashTableBuilder.InsertItemValue | gvdb/src/write/file.rs:60-108 | the new items and the result are those of `Insert` on the old items; the separator is kept |
| WriteBuilder.HashTableBuilder.InsertValue | gvdb/src/write/file.rs:118-125 | inserts a value item as `Insert` does |
| WriteBuilder.HashTableBuilder.InsertTable | gvdb/src/write/file.rs:204-211 | inserts the nested builder's snapshot as `Insert` does |
| WriteBuilder.HashTableBuilder.Build | gvdb/src/write/file.rs:223-248 | succeeds exactly when every container's children are keys; then a fresh table holds each key once with its value in its hash bucket, and every child's parent is its container |
| WriteBuilder.HashTableBuilder.LinkParent | gvdb/src/write/file.rs:77-93 | one step of the segment loop: the items become those of `AddChild`, or stay unchanged with its error |
| WriteBuilder.BuildTable | gvdb/src/write/file.rs:223-248 | the same as `build`, on the builder's items |
| WriteBuilder.InsertSorted | gvdb/src/write/file.rs:226-234 | inserting the sorted keys fills the table with each key once, with its value, and no parents |
| WriteBuilder.NotYetInserted | gvdb/src/write/file.rs:229-234 | in a strictly sorted key list no key comes twice |
| WriteBuilder.InsertNew | gvdb/src/write/file.rs:232-233 | inserting a key not yet inserted adds exactly one item and keeps the table consistent with the keys inserted so far |
| WriteBuilder.InsertedStep | gvdb/src/write/file.rs:232-233 | pushing a new key's item onto its bucket extends the inserted prefix by that key |
| WriteBuilder.PushKeeps | gvdb/src/write/file.rs:232-233 | pushing an item leaves lookups of other keys unchanged |
| WriteBuilder.InsertedKeyed | gvdb/src/write/file.rs:226-234 | once every key is inserted the table finds each key with its value |
| WriteBuilder.LinkParents | gvdb/src/write/file.rs:236-245 | succeeds exactly when every container's children are keys, and then every child's parent is its container |
| WriteBuilder.LinkEntry | gvdb/src/write/file.rs:237-244 | one step of the parent loop links one item's children or fails exactly because a child is missing |
| WriteBuilder.LinkedAll | gvdb/src/write/file.rs:236-245 | after the whole loop every child is present and linked to its container |
| WriteBuilder.KeyedFinds | gvdb/src/write/file.rs:239 | the table finds a key exactly when the builder has it |
| WriteBuilder.LinkChildren | gvdb/src/write/file.rs:238-243 | succeeds exactly when every child is found; each found child's parent becomes the item and nothing else changes |
| KeyOrder.LexIrreflexive | gvdb/src/write/file.rs:227 | no key sorts before itself |
| KeyOrder.LexTransitive | gvdb/src/write/file.rs:227 | the byte order of keys is transitive |
| KeyOrder.LexTotal | gvdb/src/write/file.rs:227 | of two distinct keys one sorts before the other |
| KeyOrder.LexMinimum | gvdb/src/write/file.rs:227 | every non-empty set of keys has a least element |
| KeyOrder.SortedDistinct | gvdb/src/write/file.rs:227 | a strictly sorted key list has no repeats |
| KeyOrder.SortedKeys | gvdb/src/write/file.rs:226-227 | the keys, each once, in strictly increasing byte order |
| KeyOrder.PrefixFirst | gvdb/src/write/file.rs:227 | a proper prefix sorts before the key, so a container sorts before its children |
| WriteIndexing.EntryKeys | gvdb/src/write/file.rs:409-411 | the keys of the entries in iteration order |
| WriteIndexing.DistinctBySize | gvdb/src/write/file.rs:409-411 | keys whose set is as large as their list are distinct |
| WriteIndexing.EntriesIndexed | gvdb/src/write/file.rs:409-411 | the iteration yields each builder key once, in its bucket, and item k gets index k |
| WriteIndexing.EntryTags | gvdb/src/write/file.rs:409-411 | every entry's bucket is its key's hash bucket |
| WriteIndexing.KeysCovered | gvdb/src/write/file.rs:409-411 | the iteration's keys are exactly the builder's keys |
| WriteIndexing.EntryItemsChained | gvdb/src/write/file.rs:409-411 | the iteration's items are exactly the table's items |
| WriteIndexing.EntriesInMap | gvdb/src/write/file.rs:409-411 | every entry is a table item with a builder key, its hash, and what lookup finds for the key |
| WriteIndexing.FlattenBelow | gvdb/src/write/file.rs:409-411 | the entries before a bucket's first are exactly those of earlier buckets |
| WriteIndexing.FoundEntry | gvdb/src/write/file.rs:462-480 | a key the table finds has an entry index holding the found item |
| WriteIndexing.DistinctIndex | gvdb/src/write/file.rs:462-480 | among distinct keys, the index of key k is k |
| WriteIndexing.IndexedFinds | gvdb/src/write/file.rs:462-480 | every child a container lists is found at its entry index |
| WriteIndexing.FlattenBucket | gvdb/src/write/file.rs:426-433 | bucket b's items are the entries that start at the count of earlier buckets' items |
| WriteLayout.Splice | gvdb/src/write/file.rs:430-431 | `copy_from_slice` into a range: the new bytes sit at the offset, everything before and after is unchanged, and the length is kept |
| WriteLayout.SpliceMiddle | gvdb/src/write/file.rs:430-431 | splicing over a middle part of the same length replaces exactly that part |
| WriteLayout.EmitLaid | gvdb/src/write/file.rs:530-541 | for chunks laid out below 4 GiB, `serialize` counts and writes exactly `offset` bytes: each chunk's bytes at its start and zeros in the gaps |
| WriteLayout.WordsAt | gvdb/src/write/file.rs:426-431 | bucket word i sits at bytes 4i to 4i + 4 as its little-endian image |
| WriteLayout.RecordsAt | gvdb/src/write/file.rs:488-494 | record i sits at bytes 24i to 24i + 24 as its encoding |
| WriteLayout.TableLayoutStart | gvdb/src/write/file.rs:413-423 | the zeroed table chunk with the header copied in is the layout with no word and no record written |
| WriteLayout.TableLayoutWord | gvdb/src/write/file.rs:427-431 | copying the next bucket word into its slot extends the written words by it |
| WriteLayout.WordsGrow | gvdb/src/write/file.rs:463-473 | copying the next child index into a container chunk extends the written indices by it |
| WriteLayout.TableLayoutRecord | gvdb/src/write/file.rs:488-496 | copying the next record into its slot extends the written records by it |
| WriteLayout.ChildIndices | gvdb/src/write/file.rs:463-473 | one index per child, and each index points at the child's key |
| WriteLayout.StripPrefix | gvdb/src/write/file.rs:440-444 | a rest exactly when the string starts with the prefix, and the prefix followed by the rest is the string |
| WriteLayout.TableWrittenFrame | gvdb/src/write/file.rs:408-504 | a written table stays written when later chunks are added and none from the table's on changes |
| WriteFile.FileWriter.WithByteswap | gvdb/src/write/file.rs:334-343 | one zeroed 24-byte chunk at 0 for the header, the offset at 24, and the given byteswap flag |
| WriteFile.FileWriter.constructor | gvdb/src/write/file.rs:311-317 | the same with byteswap set exactly on a big-endian host |
| WriteFile.FileWriter.ForBigEndian | gvdb/src/write/file.rs:324-330 | the same with byteswap set exactly on a little-endian host |
| WriteFile.FileWriter.AllocateChunkWithData | gvdb/src/write/file.rs:346-366 | the chunk is appended at the offset rounded up to the alignment, its pointer is its range, and the offset moves to its end |
| WriteFile.FileWriter.AllocateEmptyChunk | gvdb/src/write/file.rs:368-371 | the same for a zeroed chunk of the given size |
| WriteFile.FileWriter.AddValue | gvdb/src/write/file.rs:373-388 | the value's bytes are appended, aligned to 8 |
| WriteFile.FileWriter.AddString | gvdb/src/write/file.rs:403-406 | the string's bytes are appended right at the offset |
| WriteFile.FileWriter.FileSize | gvdb/src/write/file.rs:513-515 | below 4 GiB, where the last chunk ends is the offset |
| WriteFile.FileWriter.Serialize | gvdb/src/write/file.rs:517-543 | a missing root chunk is a consistency error; otherwise chunk 0 gets the header pointing at the root chunk and the output and count are every chunk after zeros up to its start |
| WriteFile.FileWriter.AddSimpleHashTable | gvdb/src/write/file.rs:408-504 | on success the new chunk holds the table as `TableWritten` describes; failure is a consistency error and never happens for a table whose keys and children are writable |
| WriteFile.FileWriter.AddKey | gvdb/src/write/file.rs:434-452 | the parent's index or u32::MAX, and on success a new chunk holding the key after its parent's key, which is never empty; an empty segment is an error and adds no chunk |
| WriteFile.FileWriter.AddContainer | gvdb/src/write/file.rs:459-480 | succeeds exactly when every child is a key, and then a new chunk holds the children's item indices |
| WriteFile.FileWriter.AddTableBuilder | gvdb/src/write/file.rs:506-511 | the nested builder is built and written as `TableWritten` describes, and succeeds when writable |
| WriteFile.WriteWithTable | gvdb/src/write/file.rs:552-559 | on success the root table is written, the header points at it, and the output is the serialized chunks; a failure outputs nothing |
| WriteFile.WriteToVecWithTable | gvdb/src/write/file.rs:562-565 | the same file as `write_with_table`, as a byte vector |
| WriteFile.WriteChunks | gvdb/src/write/file.rs:529-540 | the loop writes and counts each chunk after zeros up to its start |
| WriteFile.SerializedLayout | gvdb/src/write/file.rs:517-543 | a serialized file below 4 GiB is offset bytes long, starts with the header pointing at the root chunk, has every chunk at its start and zeros between |
| WriteFile.TableDone | gvdb/src/write/file.rs:425-498 | a table chunk with every bucket word and record in place is a written table |
| WriteFile.AlignedStart | gvdb/src/write/file.rs:352-356 | a start aligned to 4 or 8 stays aligned in the 32-bit pointer |
| WriteFile.LinkedFromBuilt | gvdb/src/write/file.rs:236-245 | what `build` promises about parents, stated on the items in iteration order |
| WriteFile.IndexItems | gvdb/src/write/file.rs:409-411 | the items in iteration order, each key once, item k with index k |
| WriteFile.AssignIndices | gvdb/src/write/file.rs:409-411 | every item's assigned index is its position in iteration order |
| WriteRead.NamesSucceed | gvdb/src/read/hash.rs:245-290 | `get_names` succeeds on a table whose parents come before their children in key length |
| WriteRead.NamedItem | gvdb/src/read/hash.rs:293-319 | every item of a written table is named by its key down its parent chain |
| WriteRead.NamedKey | gvdb/src/read/hash.rs:293-319 | the only name an item of a written table has is its key |
| WriteRead.FindsItem | gvdb/src/read/hash.rs:328-360 | `get_hash_item` finds each key of a written table at its item |
| WriteRead.FindsOnlyKeys | gvdb/src/read/hash.rs:328-360 | what `get_hash_item` finds in a written table is the item of one of its keys |
| WriteRead.NamesAreKeys | gvdb/src/read/hash.rs:245-290 | `get_names` on a written table returns the keys in item order |
| WriteRead.TableOpens | gvdb/src/read/hash.rs:89-124 | a range holding the writer's table layout opens with `for_bytes` |
| WriteRead.WrittenShows | gvdb/src/write/file.rs:408-504 | a table the writer put down opens with `for_bytes` at its chunk, and the reader sees its words and records as written |
| WriteRead.ShownKeys | gvdb/src/write/file.rs:409-411 | the written items carry every key of the builder |
| WriteRead.ShownReads | gvdb/src/read/hash.rs:245-360 | on a written table, `get_hash_item` finds every key at its item and no other key, and `get_names` returns the builder's keys, each once, in item order |
| WriteRead.BytesRead | gvdb/src/read/hash.rs:363-375 | a written value reads back with `get_bytes` under its key |
| WriteRead.WrittenValueOpens | gvdb/src/read/hash.rs:363-390 | each written value opens under its key: bytes for a value, a table for a nested table |
| WriteRead.WrittenOpens | gvdb/src/write/file.rs:408-504 | a written table opens with `for_bytes`, and every key's value reads back as written, down through nested tables |
| WriteRead.HeaderOpens | gvdb/src/read/file.rs:141-150 | the header `serialize` puts first opens with `from_bytes` and points at the root |
| WriteRead.EmittedHeader | gvdb/src/write/file.rs:517-543 | the serialized bytes hold every chunk, open with `from_bytes` in the written byte order, and `hash_table` reads the root the header points at |
| WriteRead.FileOpens | gvdb/src/write/file.rs:552-565 | a file below 4 GiB that `serialize` wrote opens in its byte order; `hash_table` opens the root and every table reads back as written |
| WriteRead.WriteThenOpen | gvdb/src/write/file.rs:562-565 | `write_to_vec_with_table` then the reader: writable builders are written; the file opens, lookup finds exactly the builder's keys, and `get_names` returns them each once |
| GResourceXml.Presets | gvdb/src/gresource/xml.rs:79-108 | `empty()` sets no option and equals the default; `xml_stripblanks()` and `json_stripblanks()` set exactly their own flag |
| GResourceXml.ParseBoolValue | gvdb/src/gresource/xml.rs:110-121 | the result is `true` exactly for the five true spellings, `false` exactly for the five false spellings, and an error naming the word otherwise |
| GResourceXml.ParseBoolCaseSensitive | gvdb/src/gresource/xml.rs:114-119 | the spellings are matched case-sensitively: `True`, `YES`, `F` and the empty string are refused |
| GResourceXml.Split | gvdb/src/gresource/xml.rs:129 | splitting always gives at least one piece |
| GResourceXml.SplitJoin | gvdb/src/gresource/xml.rs:129 | splitting on the separator loses nothing: joining the pieces gives the string back, and no piece holds the separator |
| GResourceXml.TrailingEmptyPiece | gvdb/src/gresource/xml.rs:129 | a string ending in the separator splits into a last, empty piece |
| GResourceXml.ParsePreprocessOptions | gvdb/src/gresource/xml.rs:123-143 | the loop over the comma-separated pieces computes the specification `PreprocessOptionsOf` |
| GResourceXml.ApplyTokensSpec | gvdb/src/gresource/xml.rs:127-142 | applying tokens succeeds exactly when every token is known; on success each flag is set exactly when it was set before or its token occurs; on failure the error names the first unknown token |
| GResourceXml.PreprocessOptionsSpec | gvdb/src/gresource/xml.rs:123-143 | parsing succeeds iff every piece is one of the three names, and then each option is set iff its name occurs |
| GResourceXml.EmptyTokenRefused | gvdb/src/gresource/xml.rs:129-138 | the empty string and any list with a trailing comma are refused, because the empty piece is not a known name |
| GResourceXml.TokenOrderIrrelevant | gvdb/src/gresource/xml.rs:129-140 | two token lists with the same members give the same outcome |
| GResourceXml.JsonAndPixdata | gvdb/src/gresource/xml.rs:123-143 | `json-stripblanks,to-pixdata` gives the options with JSON stripping and pixdata set and XML stripping unset |
| GResourceBundle.PreprocessSpec | gvdb/src/gresource/bundle.rs:172-193 | no option leaves the data as it is; XML stripping alone and JSON stripping alone apply their transform; both apply XML then JSON; `to-pixdata` always fails, and alone fails as unimplemented |
| GResourceBundle.FileDataSpec | gvdb/src/gresource/bundle.rs:68-92 | a file entry is built iff preprocessing succeeds and, when compressing, compression succeeds; its key is the given key, its size the preprocessed length truncated to 32 bits, and its data either the compressed bytes with the compressed flag or the preprocessed bytes plus one NUL with no flag |
| GResourceBundle.NewFileData | gvdb/src/gresource/bundle.rs:68-92 | the constructor computes the specification `FileDataOf` |
| GResourceBundle.CmpSpec | gvdb/src/gresource/bundle.rs:215-232 | two entries compare equal iff their keys are equal; the order is antisymmetric, is the byte-wise order on keys, and depends on nothing but the keys |
| GResourceBundle.CmpTransitive | gvdb/src/gresource/bundle.rs:230-232 | the order on entries is transitive |
| GResourceBundle.InsertByKeySpec | gvdb/src/gresource/bundle.rs:447 | inserting into a sorted list keeps it sorted and adds exactly the new entry |
| GResourceBundle.SortByKeySpec | gvdb/src/gresource/bundle.rs:446-447 | sorting gives a sorted permutation of the entries |
| GResourceBundle.SortedUnique | gvdb/src/gresource/bundle.rs:446-447 | two sorted lists with the same entries and distinct keys are equal |
| GResourceBundle.SortOrderIrrelevant | gvdb/src/gresource/bundle.rs:446-447 | when keys are distinct, the sorted list does not depend on the order the directory walk yields the files in, so builds are reproducible |
| GResourceBundle.XmlKeySpec | gvdb/src/gresource/bundle.rs:282-291 | a manifest file's key is the prefix, a slash unless the prefix already ends in one, then the alias if there is one or else the file name |
| GResourceBundle.SectionFromSpec | gvdb/src/gresource/bundle.rs:281-299 | the loop over one section's files appends exactly one entry per file, in order, each built from that file's key, compression flag and options |
| GResourceBundle.ManifestFromSpec | gvdb/src/gresource/bundle.rs:280-300 | the loop over the sections appends exactly one entry per file of every section, in order |
| GResourceBundle.FromXmlSpec | gvdb/src/gresource/bundle.rs:277-303 | on success the builder holds one entry per manifest file, in manifest order, each built from that file |
| GResourceBundle.FromXml | gvdb/src/gresource/bundle.rs:277-303 | the method computes the specification `ManifestFrom`: the same files on success and the same first error on failure |
| GResourceBundle.OptionsForSpec | gvdb/src/gresource/bundle.rs:429-438 | JSON stripping is chosen iff blanks are stripped and the path ends in `.json`; otherwise XML stripping iff blanks are stripped and it ends in `.xml`, or it ends in `.ui` or `.svg`; pixdata never |
| GResourceBundle.ScanEntryPacks | gvdb/src/gresource/bundle.rs:393-442 | one walk entry gives a file entry iff it is a file whose name has no skipped extension, and that entry is built from the prefixed relative path and the compression decision |
| GResourceBundle.ScanFromSpec | gvdb/src/gresource/bundle.rs:384-444 | the walk loop keeps what it had, adds only entries built from kept files, and adds one for every kept file |
| GResourceBundle.DirectoryFilesSpec | gvdb/src/gresource/bundle.rs:370-450 | on success the files are sorted by key, every one comes from a kept file under the slash-terminated prefix, and every kept file yields one |
| GResourceBundle.WalkErrorFails | gvdb/src/gresource/bundle.rs:385-390 | an error anywhere in the directory walk makes the whole scan fail |
| GResourceBundle.NoCompressionWhenOff | gvdb/src/gresource/bundle.rs:340-359 | with compression off, no file entry carries the compressed flag |
| GResourceBundle.MatchesAny | gvdb/src/gresource/bundle.rs:399-412 | the loop over the extensions finds a match iff the name ends with one of them |
| GResourceBundle.FromDirectoryWithExtensions | gvdb/src/gresource/bundle.rs:370-450 | the method computes the specification `DirectoryFiles`: the same files on success and the same first error on failure |
| GResourceBundle.FromDirectory | gvdb/src/gresource/bundle.rs:340-359 | the default lists are used, the compression list only when compression is on, and the result is that of the general scan |
| GResourceBundle.InsertAll | gvdb/src/gresource/bundle.rs:464-472 | the insertion loop leaves the table builder holding what the specification `InsertFiles` computes, and returns its outcome |
| GResourceBundle.InsertFilesFails | gvdb/src/gresource/bundle.rs:464-472 | once an insertion fails, later files change nothing: the first error is the outcome |
| GResourceBundle.InsertFilesStores | gvdb/src/gresource/bundle.rs:464-472 | each file whose key is not inserted again later is stored under its key as its size, flags and data |
| GResourceBundle.BuildFits | gvdb/src/gresource/bundle.rs:460-475 | when the keys are small enough, the table built from the files fits the 32-bit offsets of the file format |
| GResourceBundle.Build | gvdb/src/gresource/bundle.rs:460-475 | an insertion error is returned as is; otherwise the output is the header followed by the root table written from the inserted items, and writing always succeeds for tables that fit |
| Utf8.ConcatValid | gvdb/src/read/hash.rs:322-325 | two valid UTF-8 byte strings concatenate to valid UTF-8, so a key built from valid segments passes `String::from_utf8` |
| Utf8.SuffixValid | gvdb/src/read/hash.rs:322-325 | the rest of a valid UTF-8 string after a valid prefix is valid |
| Utf8.PrefixValid | gvdb/src/read/hash.rs:322-325 | the part of a valid UTF-8 string before a valid suffix is valid |
| Utf8.AsciiValid | src/no_glib/variant.rs:405-407 | bytes below 0x80 are valid UTF-8, so type strings always pass `from_utf8` |
| VariantType.Print | src/no_glib/variant_type.rs:406-451 | the spelling of a type tree is never empty |
| VariantType.OpeningOf | src/no_glib/variant_type.rs:416-450 | a one-character type, `(`, `{`, and `m`/`a` are each recognised exactly by their own class characters |
| VariantType.CheckPrefix | src/no_glib/variant_type.rs:406-451 | the recursive check computes the specification `ValidPrefix`: the rest of the string after one complete type, within the depth budget |
| VariantType.CheckMembers | src/no_glib/variant_type.rs:426-432 | the tuple loop computes the specification `TupleMembers`: members up to `)`, then what follows it |
| VariantType.CheckDictEntry | src/no_glib/variant_type.rs:433-446 | the dict-entry branch computes `DictEntryRest`: a basic key, one value type, then `}` |
| VariantType.TypeStringIsValid | src/no_glib/variant_type.rs:455-462 | the result is `ValidType`: a non-empty string that is exactly one complete type within depth 128 |
| VariantType.PrefixIsType | src/no_glib/variant_type.rs:406-451 | whatever the check accepts is the spelling of a well-formed type tree within the depth, followed by the rest it returns |
| VariantType.PrintIsValid | src/no_glib/variant_type.rs:406-451 | the spelling of any well-formed tree within the depth is accepted, with exactly the following bytes left over |
| VariantType.TooDeepIsRejected | src/no_glib/variant_type.rs:407-409 | a tree deeper than the depth budget is refused |
| VariantType.PrintedValid | src/no_glib/variant_type.rs:455-462 | a well-formed tree's spelling is a valid type string iff its depth is at most 128 |
| VariantType.ValidTypeIsGrammar | src/no_glib/variant_type.rs:455-462 | a string is a valid type iff it spells some well-formed tree of depth at most 128 |
| VariantType.ValidTypeIsPrintable | src/no_glib/variant_type.rs:262-264 | a valid type string consists of printable ASCII characters only, so it has no zero byte |
| VariantType.ValidExamples | src/no_glib/variant_type.rs:933-946 | `()`, `(uus)` and `a{u(us)}` are valid |
| VariantType.DictionaryTree | src/no_glib/variant_type.rs:946 | `a{u(us)}` spells an array of dict entries from `u` to the tuple `(us)` |
| VariantType.InvalidExamples | src/no_glib/variant_type.rs:929-950 | `a`, `(uus))`, `a{u}` and the empty string are refused |
| VariantType.ClassesOfTree | src/no_glib/variant_type.rs:301-331 | on spellings, `is_basic` holds exactly for basic one-character types, `is_container` exactly for the others but `*`, and `is_tuple` exactly for tuples and `r` |
| VariantType.TypeElement | src/no_glib/variant_type.rs:565-568 | the element type is the type string without its leading `a` or `m` |
| VariantType.ConcatPrintEach | src/no_glib/variant_type.rs:818-828 | joining the members' spellings gives the spelling of the member list |
| VariantType.NewArraySpec | src/no_glib/variant_type.rs:784-789 | `new_array` of a tree's spelling gives the array's spelling when the element is shallower than 128, else fails |
| VariantType.NewMaybeSpec | src/no_glib/variant_type.rs:802-807 | `new_maybe` of a tree's spelling gives the maybe's spelling when the element is shallower than 128, else fails |
| VariantType.NewTupleSpec | src/no_glib/variant_type.rs:818-828 | `new_tuple` of the members' spellings gives the tuple's spelling when every member is shallower than 128, else fails |
| VariantTypeLength.Scan | src/no_glib/variant_type.rs:343-367 | the end found by the bracket scan lies after its start and within the string |
| VariantTypeLength.StringLengthInner | src/no_glib/variant_type.rs:343-367 | the loop computes the specification `StringLength` |
| VariantTypeLength.ScanType | src/no_glib/variant_type.rs:343-367 | on the spelling of a type without dict entries the scan ends exactly after that spelling |
| VariantTypeLength.StringLengthOfPrinted | src/no_glib/variant_type.rs:370-372 | `string_length` of a dict-entry-free type followed by anything is that type's length |
| VariantTypeLength.IntendedStringLengthOfPrinted | src/no_glib/variant_type.rs:370-372 | the corrected length is the type's length for every well-formed type, dict entries included |
| VariantTypeLength.DictEntryLengthIsOne | src/no_glib/variant_type.rs:353-356 | as written, every dict entry has length 1, because `{` is never counted |
| VariantTypeLength.WrittenStringLengthEnds | src/no_glib/variant_type.rs:343-372 | as written, `string_length` still gives a length, at most the whole type, for every well-formed type at the head |
| VariantTypeLength.WrittenScanType | src/no_glib/variant_type.rs:343-367 | as written, the scan from a well-formed type ends within it, early after a `{` |
| VariantTypeLength.WrittenScanEndsFirst | src/no_glib/variant_type.rs:343-367 | inside a bracket, the scan that does not count `{` ends no later than the one that does |
| VariantTypeLength.DictEntryLengthShort | src/no_glib/variant_type.rs:353-356 | `{sv}` has length 1 as written and 4 as intended |
| VariantTypeLength.LengthOfTupleOfArray | src/no_glib/variant_type.rs:1007 | `(ay)` has length 4 |
| VariantTypeLength.LengthOfTupleBeforeArray | src/no_glib/variant_type.rs:1008 | `(u)ay` has length 3 |
| VariantTypeLength.LengthOfBasicBeforeBasic | src/no_glib/variant_type.rs:1009 | `uu` has length 1 |
| VariantTypeLength.NormalizedOfPrinted | src/no_glib/variant_type.rs:279-281 | normalising a dict-entry-free type followed by anything keeps exactly the type |
| VariantTypeLength.Next | src/no_glib/variant_type.rs:594-602 | the next member type is strictly shorter than the current one |
| VariantTypeLength.NItems | src/no_glib/variant_type.rs:605-615 | the counting loop computes the specification `ItemsFrom(First(s))` |
| VariantTypeLength.NItemsOfTuple | src/no_glib/variant_type.rs:584-615 | `n_items` of a tuple of dict-entry-free members is the number of members |
| VariantSubtype.IsSubtypeOf | src/no_glib/variant_type.rs:375-404 | the loop over the supertype's characters computes the specification `Subtype` |
| VariantSubtype.WalkType | src/no_glib/variant_type.rs:375-404 | the corrected walk over two spellings agrees with the tree relation `Admits`: it goes on after both types when the supertype admits the subject and answers false otherwise |
| VariantSubtype.IntendedSubtypeIsAdmits | src/no_glib/variant_type.rs:375-404 | the corrected subtype check on two spellings is exactly `Admits` on the trees: equal characters match, `?` a basic type, `r` a tuple, `*` anything |
| VariantSubtype.SubtypeReflexive | src/no_glib/variant_type.rs:378-379 | every type string is a subtype of itself, as written and as intended |
| VariantSubtype.AdmitsReflexive | src/no_glib/variant_type.rs:375-404 | every tree admits itself |
| VariantSubtype.AdmitsTransitive | src/no_glib/variant_type.rs:375-404 | the subtype relation on trees is transitive |
| VariantSubtype.AnyAdmitsPrinted | src/no_glib/variant_type.rs:375-403 | `*` admits every well-formed type, as written as well as intended, dict entries included |
| VariantSubtype.ArraySubtypeExamples | src/no_glib/variant_type.rs:968-979 | `ay` is a subtype of `a?` and `as` of `a*` |
| VariantSubtype.WildcardSubtypeExamples | src/no_glib/variant_type.rs:971-982 | `s` is a subtype of `?` and `(uu)` of `r` |
| VariantSubtype.ElementNotBasicExamples | src/no_glib/variant_type.rs:984-992 | `ay` and `mu` are not subtypes of `?` |
| VariantSubtype.BracketNotBasicExamples | src/no_glib/variant_type.rs:987-995 | `()` and `{uu}` are not subtypes of `?` |
| VariantSubtype.NotSubtypeExamples | src/no_glib/variant_type.rs:996-1001 | `u` is not a subtype of `au`, nor `(au)` of `(auu)` |
| VariantSubtype.BasicWildcardInsideTuple | src/no_glib/variant_type.rs:390-393 | as written `(y)` is not a subtype of `(?)`, though the trees admit it and the corrected check says so |
| VariantSubtype.DictEntryUnderWildcard | src/no_glib/variant_type.rs:395-399 | as written `({uu}u)` is not a subtype of `(*u)`, because `*` skips only one character of the entry; the corrected check accepts it |
| VariantTypeInfo.TypeInfoInner | src/no_glib/variant_type.rs:464-553 | the recursive computation gives the specification `Info`: a type's info and the characters it consumed |
| VariantTypeInfo.TupleTypeInfoInner | src/no_glib/variant_type.rs:487-541 | the tuple branch's loop over the members computes the tuple case of `Info` |
| VariantTypeInfo.Info | src/no_glib/variant_type.rs:464-553 | the consumed count is at least one and at most the string's length |
| VariantTypeInfo.TupleInfoLaysOutMembers | src/no_glib/variant_type.rs:491-539 | a tuple's info records one member info per member, is aligned as its most aligned member, counts the variable-size members, and has the members' placed size when none is variable |
| VariantTypeInfo.PadRoundsUp | src/no_glib/variant_type.rs:522-524 | padding reaches the first multiple of the alignment at or after the size |
| VariantTypeInfo.MaxAlignmentIsLargest | src/no_glib/variant_type.rs:515 | the tuple's alignment is at least every member's and equals one of them |
| VariantTypeInfo.CountUnsizedCounts | src/no_glib/variant_type.rs:518-520 | the variable-size count is at most the member count and is 0 iff every member has a fixed size |
| VariantTypeInfo.MembersPlaced | src/no_glib/variant_type.rs:515-526 | each member starts at a multiple of its alignment, after the previous member and before one more alignment, and ends its fixed size later |
| VariantTypeInfo.IntendedTypeInfo | src/no_glib/variant_type.rs:464-553 | every intended alignment is 1, 2, 4 or 8 |
| VariantTypeInfo.PlainTypeInfo | src/no_glib/variant_type.rs:464-553 | for one-character types, maybes of variable-size ones, and arrays of one-character types the code computes the intended info and consumes exactly the type |
| VariantTypeInfo.PlainTupleTypeInfo | src/no_glib/variant_type.rs:487-541 | for a non-empty tuple of such types the code computes the intended info but for an unpadded fixed size (`WrittenTupleInfo`), and consumes all but the closing `)` |
| VariantTypeInfo.TupleSizePadded | src/no_glib/variant_type.rs:522-539 | a fixed-size tuple's intended size is where its last member ends, rounded up to its alignment; the code's info differs in that size alone, is never larger, and is right exactly when the end is already aligned |
| VariantTypeInfo.UnpaddedTupleInfo | src/no_glib/variant_type.rs:522-539 | as written `(uy)` gets fixed size 5; intended is 8 |
| VariantTypeInfo.CharTypeInfo | src/no_glib/variant_type.rs:468-478 | the one-character types get the alignment and fixed size of the table: 1, 2, 4, 8 bytes for the integers, 8 for doubles, variable size for strings, variants and the wildcards |
| VariantTypeInfo.EmptyTupleInfo | src/no_glib/variant_type.rs:487-541 | as written `()` gets alignment 0 and consumes one character, where the intended info is a 1-byte fixed-size type |
| VariantTypeInfo.NestedEmptyTupleInfo | src/no_glib/variant_type.rs:522 | `(())` makes the code take a remainder by 0, while the intended alignment is 1 |
| VariantTypeInfo.NestedTupleInfo | src/no_glib/variant_type.rs:512-514 | as written `((y)u)` has one member and alignment 1, because the inner tuple's `)` is not consumed; intended are two members and alignment 4 |
| VariantTypeInfo.ArrayOfArrayInfo | src/no_glib/variant_type.rs:542-550 | as written `aay` fails, because only the one character after `a` is looked at; the intended info is an array aligned 1 |
| VariantTypeInfo.DictEntryInfo | src/no_glib/variant_type.rs:551 | `{yy}` falls to the default arm, an unaligned variable-size type, where the intended info is a 2-byte fixed-size pair |
| VariantValue.FromDataWithType | src/no_glib/variant.rs:29-32 | a value is made iff the type has an info, and holds the given type and data |
| VariantValue.NewString | src/no_glib/variant.rs:35-39 | succeeds exactly when the string holds no zero byte; the value is an `s` holding the string and a NUL |
| VariantValue.OffsetItemSize | src/no_glib/variant.rs:91-104 | the offset width read from a container is never more than the container's length |
| VariantValue.OffsetSizeForN | src/no_glib/variant.rs:106-119 | the offset width chosen for a container is 1, 2, 4 or 8 |
| VariantValue.OffsetSizeFits | src/no_glib/variant.rs:106-119 | the chosen offset width below 8 bytes can hold every offset of the container with its offsets appended |
| VariantValue.OffsetSizesAgree | src/no_glib/variant.rs:91-119 | the width the reader derives from the container's length is the width the writer chose |
| VariantValue.ReadUnalignedLe | src/no_glib/variant.rs:121-133 | a read succeeds iff the width is 1, 2, 4 or 8 and the data holds that many bytes |
| VariantValue.ReadWritten | src/no_glib/variant.rs:121-148 | reading an offset written in little-endian of that width gives it back |
| VariantValue.ReadNothingPanics | src/no_glib/variant.rs:121-133 | reading with width 0 fails, as `from_le_bytes` on no bytes panics |
| VariantValue.OffsetBytes | src/no_glib/variant.rs:135-148 | the offsets take exactly their count times the width |
| VariantValue.OffsetBytesAt | src/no_glib/variant.rs:135-148 | offset k is stored at k times the width, in little-endian |
| VariantValue.AddOffsets | src/no_glib/variant.rs:135-148 | the loop appends every offset in order, at the width chosen for the data and the offset count |
| VariantValue.ArrayOf | src/no_glib/variant.rs:151-173 | an array is made only when every child has the element type, and has type `a` followed by that type |
| VariantValue.ArrayFromIterWithType | src/no_glib/variant.rs:151-173 | the loop computes the specification `ArrayOf` |
| VariantValue.ArrayOfTyped | src/no_glib/variant.rs:159-172 | the array's data is the children's data, then their end offsets when the element has no fixed size |
| VariantValue.OffsetsArraySize | src/no_glib/variant.rs:248-263 | the offsets size found is within the data and a multiple of the offset width |
| VariantValue.VariableArrayOffsets | src/no_glib/variant.rs:248-263 | for an array the writer built, the reader finds exactly the offsets the writer appended |
| VariantValue.Children | src/no_glib/variant.rs:266-294 | a count only for a type with an info; as intended it never fails, and as written only an array can fail; a maybe has one child exactly when it holds data; an array has no more children than bytes |
| VariantValue.NChildren | src/no_glib/variant.rs:266-294 | `n_children` as written agrees with the intended count on all non-empty data |
| VariantValue.IntendedNChildren | src/no_glib/variant.rs:266-294 | the intended count exists exactly for a type with an info |
| VariantValue.MemberSize | src/no_glib/variant.rs:358-377 | a fixed-size member measures its fixed size; the last variable-size member ends where the offsets start; any other ends at the offset read from slot n + 1 counted from the back |
| VariantValue.TupleWalk | src/no_glib/variant.rs:350-385 | the walk never moves back; it finds member `index` whenever that member lies ahead, and then gives that member's own type and a start not after its end |
| VariantValue.FixedElement | src/no_glib/variant.rs:302-309 | element i exists exactly when its `size` bytes at i·size lie within the data and the type has an info, and it is those bytes with the element type |
| VariantValue.VariableElement | src/no_glib/variant.rs:310-333 | the element has the element type and is no longer than the data; element 0 is a prefix of the data |
| VariantValue.ArrayChild | src/no_glib/variant.rs:302-334 | a child of an array has the element type and is no longer than the array's data |
| VariantValue.TupleChild | src/no_glib/variant.rs:339-391 | only a tuple info gives a child; child i below the member count has member i's type; it is no longer than the tuple's data |
| VariantValue.VariantChild | src/no_glib/variant.rs:394-411 | the child's type string is valid, and the child's data, a zero byte and that type string make up the box's data |
| VariantValue.ChildAt | src/no_glib/variant.rs:297-415 | a child only at an index below the count `n_children` gives; no longer than the parent's data; of an array or a maybe, of the element type |
| VariantValue.ChildValue | src/no_glib/variant.rs:297-415 | as written: a child only below `n_children` as written |
| VariantValue.IntendedChildValue | src/no_glib/variant.rs:297-415 | as intended: a child only below the intended count |
| VariantValue.MeasureMember | src/no_glib/variant.rs:358-377 | the member-size step computes `MemberSize`: the fixed size, the bytes up to the offsets for the last member, or its end offset minus its start |
| VariantValue.WalkTuple | src/no_glib/variant.rs:350-385 | the member loop computes the specification `TupleWalk` |
| VariantValue.SeparatorFrom | src/no_glib/variant.rs:396-402 | the position found follows a zero byte and lies inside the data |
| VariantValue.FindSeparator | src/no_glib/variant.rs:396-402 | the reversed scan computes `SeparatorFrom` |
| VariantValue.SeparatorBeforeLast | src/no_glib/variant.rs:396-402 | the scan stops at the last zero byte that is not the final byte |
| VariantValue.TupleLoop | src/no_glib/variant.rs:185-200 | the type string built so far only grows |
| VariantValue.Reversed | src/no_glib/variant.rs:211 | the reversed offsets hold the same offsets, the last first |
| VariantValue.TupleOf | src/no_glib/variant.rs:176-214 | a built tuple's type starts with `(` and ends with `)` |
| VariantValue.TupleFromIter | src/no_glib/variant.rs:176-214 | the loop, with its inner padding loop, computes the specification `TupleOf` |
| VariantValue.EmptyTupleData | src/no_glib/variant.rs:176-214 | `tuple_from_iter` of no members gives `()` holding the single zero byte, and that value has no children |
| VariantValue.FromVariant | src/no_glib/variant.rs:217-226 | boxing succeeds exactly when the type string holds no zero byte; the box is a `v` holding the data, a zero byte and the type |
| VariantValue.FromVariantRoundTrip | src/no_glib/variant.rs:217-226 | boxing a valid value gives a `v` whose data is the value's data, a zero byte and its type; the box has one child, and that child is the value |
| VariantValue.BoxedChild | src/no_glib/variant.rs:394-411 | the variant branch of `try_child_value` gives back the boxed value |
| VariantValue.StrOfNewString | src/no_glib/variant.rs:35-39 | `new_string` fails iff the string holds a zero byte; otherwise it stores the string and a NUL, and `str` gives the string back |
| VariantValue.Str | src/no_glib/variant.rs:436-447 | a string only from a subtype of `s`; it is UTF-8 without zero bytes, and the data is empty or the string followed by a NUL |
| VariantValue.StringIsString | src/no_glib/variant.rs:437 | `s` has an info and is a subtype of itself |
| VariantValue.FixedArrayChild | src/no_glib/variant.rs:302-309 | child i of an array of fixed-size children is child i |
| VariantValue.FixedArrayRoundTrip | src/no_glib/variant.rs:151-173 | an array of fixed-size children has as many children as it was built from, and each `child_value(i)` is child i, as written and as intended |
| VariantValue.VariableElementOf | src/no_glib/variant.rs:310-333 | in an array the writer built, the variable-size element i lies between the previous end offset and its own |
| VariantValue.VariableArrayChild | src/no_glib/variant.rs:310-334 | child i of a non-empty array of variable-size children is child i |
| VariantValue.VariableArrayRoundTrip | src/no_glib/variant.rs:151-173 | an array of variable-size children has as many children as it was built from, and each `child_value(i)` is child i: for a non-empty array as written, and for any array, the empty one included, as intended |
| VariantValue.EmptyVariableArrayPanics | src/no_glib/variant.rs:248-251 | as written `n_children` of an empty `as` fails (the offset width is 0 and the read panics); intended is 0 |
| VariantValue.FixedTupleChildPanics | src/no_glib/variant.rs:340-343 | as written a child of `(y)` fails, as `n_unsized_members - 1` underflows; intended is the byte |
| VariantValue.NothingMemberMisread | src/no_glib/variant_type.rs:479-486 | as written `my` gets fixed size 1, `(mys)` from a Nothing and "hi" is written as `hi\0` alone, and the reader, as written and with the intended offsets start alike, gives back a Just 'h' and "i" |
| VariantValue.NothingMemberTupleInfo | src/no_glib/variant_type.rs:479-539 | as written `(mys)` has one variable-size member, `s`, after a 1-byte fixed-size `my` |
| VariantValue.MaybeOfByteInfo | src/no_glib/variant_type.rs:479-486 | as written `my` is a fixed-size type of size 1 |
| VariantValue.EmptyFirstTupleInfo | src/no_glib/variant.rs:340 | `(ayy)` has two members, one variable-size, aligned 1 |
| VariantValue.EmptyFirstTupleMember | src/no_glib/variant.rs:379-391 | as written an empty first member of `(ayy)` gets all the data, because an end of 0 reads as "no end"; intended is the empty array |
| VariantImpl.OfLeToLe | src/no_glib/variant_impl.rs:12-56 | decoding the little-endian bytes of an integer in range gives it back |
| VariantImpl.ToLeOfLe | src/no_glib/variant_impl.rs:94-171 | encoding a decoded integer gives the bytes back |
| VariantImpl.TypeCharIsBasic | src/no_glib/variant_impl.rs:12-56 | each integer's type character is basic and has a fixed size of the integer's width |
| VariantImpl.ScalarToVariant | src/no_glib/variant_impl.rs:12-56 | an integer, or an f64 as its bit pattern, becomes a value of its one-character type holding its width in bytes |
| VariantImpl.ScalarFromVariant | src/no_glib/variant_impl.rs:94-171 | an integer, or an f64 as its bit pattern, is read back iff the type is its type and the data has its width, and is then in range |
| VariantImpl.ScalarRoundTrip | src/no_glib/variant_impl.rs:12-171 | `from_variant(to_variant(x)) == Some(x)` for every integer type, and for f64 as its bit pattern |
| VariantImpl.ScalarFromVariantInverse | src/no_glib/variant_impl.rs:12-171 | every value an integer, or an f64 as its bit pattern, is read from is the value it turns into |
| VariantImpl.BoolToVariant | src/no_glib/variant_impl.rs:5-10 | a boolean becomes one byte of type `b` |
| VariantImpl.BoolFromVariant | src/no_glib/variant_impl.rs:83-92 | a boolean is read iff the type is `b` and the data is one byte |
| VariantImpl.BoolRoundTrip | src/no_glib/variant_impl.rs:5-92 | booleans round-trip; a byte reads as true iff it is not 0, and turns back into the same value iff it was 0 or 1 |
| VariantImpl.BytesToVariant | src/no_glib/variant_impl.rs:59-75 | a byte slice becomes an `ay` holding those bytes |
| VariantImpl.BytesAreByteArray | src/no_glib/variant_impl.rs:59-75 | that value is the array of the bytes' `y` values: it has one child per byte and child i reads as byte i |
| VariantImpl.StrToVariant | src/no_glib/variant_impl.rs:77-81 | a string becomes a value of type `s` |
| VariantImpl.StringFromVariant | src/no_glib/variant_impl.rs:174-182 | a string is read only from a value of type `s`, and is valid UTF-8 |
| VariantImpl.StringRoundTrip | src/no_glib/variant_impl.rs:77-182 | a string without zero bytes round-trips |
| VariantTuple.TupleRoundTrip | src/no_glib/variant.rs:176-393 | a tuple built by `tuple_from_iter` from members of plain types has type `(` + the members' types + `)`, `n_children` equal to the number of members, and child i is member i with its type and data; as written this needs at least one variable-size member and a non-empty first member (otherwise the two tuple findings apply) |
| VariantTuple.TupleShape | src/no_glib/variant.rs:176-214 | the members' infos are aligned, the tuple's type info is the one the code gives it (the intended one but for an unpadded fixed size), and the built value is the laid-out data followed by the reversed offsets |
| VariantTuple.TupleWritten | src/no_glib/variant.rs:176-214 | the writer yields the members' types between brackets, and data equal to `TupleData`: each member padded to its alignment, then the ends of the variable-size members but the last, reversed, at the width the offset table needs |
| VariantTuple.LoopLays | src/no_glib/variant.rs:185-201 | from any member k on, the loop finishes the layout begun by the first k members, ending with all the types, all the laid-out data and all the offsets |
| VariantTuple.LoopStep | src/no_glib/variant.rs:185-201 | one turn pads member k to its alignment, appends its data, and records its end exactly when it is variable-size and not the last |
| VariantTuple.MemberLaid | src/no_glib/variant.rs:189-194 | in the laid-out data, member k starts at its padded start and its bytes are the member's data |
| VariantTuple.OffsetsCounted | src/no_glib/variant.rs:196-199 | before the last member, the writer records one offset per variable-size member |
| VariantTuple.OffsetEntry | src/no_glib/variant.rs:196-199 | a variable-size member that is not the last records its end, after one offset for each variable-size member before it |
| VariantTuple.OffsetsTotal | src/no_glib/variant.rs:196-199 | all offsets together number the variable-size members, less one when the last member is variable-size |
| VariantTuple.ReaderStart | src/no_glib/variant.rs:341-343 | the reader's `offsets_start` is the data length less one width per recorded offset, and it is where the laid-out data ends when the last member is variable-size |
| VariantTuple.OffsetRead | src/no_glib/variant.rs:364-371 | the slot the reader reads for a variable-size member that is not the last, counting from the back, holds that member's end as the writer recorded it |
| VariantTuple.ReadBack | src/no_glib/variant.rs:364-371 | offset c of a list, written reversed after some data, is read back from slot c + 1 counted from the end |
| VariantTuple.MemberMeasured | src/no_glib/variant.rs:354-375 | the reader measures each member at its laid-out size: a fixed-size member by its fixed size, the last member up to the offsets, any other by the offset it reads |
| VariantTuple.WalkReaches | src/no_glib/variant.rs:350-385 | if every member up to `index` measures as laid out, the walk from member idx stops at member `index`'s start and end, with its type |
| VariantTuple.TupleWalked | src/no_glib/variant.rs:339-385 | on written tuple data, the reader's walk finds member i where the writer put it, with its type |
| VariantTuple.LaidCut | src/no_glib/variant.rs:339-391 | on written tuple data, the reader's offsets start, walk and final slice for member i hold member i's data |
| VariantTuple.ChildOfLaid | src/no_glib/variant.rs:339-393 | the tuple branch of `try_child_value` gives back member i of written tuple data with the member's type |
| VariantTuple.TupleChildAt | src/no_glib/variant.rs:297-393 | child i of a tuple built from members of plain types is member i |
| VariantTuple.TupleDispatch | src/no_glib/variant.rs:266-339 | for a value of tuple type, `n_children` is the member count of its type info, and `try_child_value` takes the tuple branch for every index below it |
| VariantTuple.TupleTypeOf | src/no_glib/variant.rs:176-214 | the type string the writer builds is the printed tuple type, and its info is the intended tuple info but for an unpadded fixed size |
| VariantTuple.MemberInfos | src/no_glib/variant.rs:186-189 | each plain member's type info is its intended info, and all are aligned |
| VariantTuple.IntendedTupleOf | src/no_glib/variant.rs:176-214 | the tuple as the format lays it out has the printed tuple type and begins with the data `tuple_from_iter` writes, and is exactly that data when a member has variable size |
| VariantTuple.IntendedTupleSize | src/no_glib/variant_type.rs:522-539 | a tuple of fixed-size members, written as intended, is exactly as long as its intended fixed size, the padded one |
| VariantTuple.IntendedTupleRoundTrip | src/no_glib/variant.rs:339-393 | for any member types, a Nothing or an all-fixed tuple among them, the tuple written as intended and read with its intended info gives back member i's data with its type |
| VariantTuple.IntendedChildOfLaid | src/no_glib/variant.rs:339-393 | the tuple branch of `try_child_value`, run with the intended count of variable-size members, gives back member i of laid-out tuple data, also when an all-fixed tuple carries trailing padding |
| VariantTuple.PaddedCut | src/no_glib/variant.rs:339-391 | trailing padding after an all-fixed tuple does not change where the reader cuts out member i |
| VariantTuple.FixedWalk | src/no_glib/variant.rs:350-385 | over fixed-size members the reader's walk reads nothing, so data, offset width and offsets start do not change its result |
| VariantTuple.LaidEnd | src/no_glib/variant.rs:189-194 | members each as long as their fixed size are laid out up to the end the type info computes for the last |
| VariantTuple.WrittenAsIntended | src/no_glib/variant.rs:176-214 | when a plain member has variable size, `tuple_from_iter` writes exactly the intended tuple |
| VariantTuple.NothingMemberIntended | src/no_glib/variant_type.rs:479-486 | as intended, `(mys)` from a Nothing and "hi" is written as `hi\0` plus the end offset 0, and reads back as the empty Nothing and "hi" |

## Left out

- ReadHash.CheckName: `check_name` recurses without bound when an empty key segment lies on a parent cycle. The model carries a `budget` of consecutive empty segments and answers false once it runs out. Only such a cycle can exhaust it, and the writer never produces one, because it refuses empty segments.
- GResourceBundle.Build: requires the keys to take less than 4 GiB in total. Past that, the source truncates key offsets to 32 bits, and the model does not follow it there.
- GResourceBundle.FromDirectoryWithExtensions: the walk is a sequence of `WalkEntry` values instead of a `WalkDir` over the file system. A path not below the walked directory is never produced, so the `StripPrefix` error path (gvdb/src/gresource/bundle.rs:415-418) is not modelled. File contents come from a `read` parameter.
- GResourceBundle.Preprocess: XML and JSON blank stripping and zlib compression are the opaque functions of a `Transforms` parameter. quick_xml, serde_json and flate2 are not part of this model.
- GResourceBundle.FromXml: the manifest's XML parsing (serde and quick_xml) is not modelled. The model starts from the parsed manifest records.
- WriteBuilder.HashTableBuilder.WithPathSeparator: the separator is one byte. The source accepts any `&str` pattern, so multi-byte separators are left out.
- WriteFile.FileWriter.AddValue: a value is the opaque bytes its encoder produced. The per-endian zvariant and glib encodings (gvdb/src/write/file.rs:373-401) are not modelled, so the byte-exact comparisons with GLib reference files are not modelled either.
- WriteFile.FileWriter.Serialize: writes into an in-memory byte sequence, not into a `std::io::Write`. I/O errors are therefore not modelled.
- WriteRead.WriteThenOpen: stated for keys that are valid UTF-8 and shorter than 64 KiB, in files below 4 GiB. A longer key has its 16-bit size truncated; that truncation is modelled, but a reader would then see a different key.
- VariantValue.FixedArrayRoundTrip: stated for element types whose fixed size the code computes as intended (`ElementSizesAgree`). For the other types the code's type info is already wrong (see "## Findings").
- VariantValue.VariableArrayRoundTrip: same restriction as FixedArrayRoundTrip. It also holds for the empty array only as intended (finding 10).
- VariantTuple.TupleRoundTrip: stated for members whose type info the code computes as intended (`Plain`: single-character types, arrays of those, and maybes of variable-size plain types). Maybes of fixed-size types, nested tuples and dict entries run into the type-info defects listed under "## Findings". VariantTuple.IntendedTupleRoundTrip states the round trip for every member type, with the corrected writer and type info.
- VariantValue.ChildAt: an arithmetic underflow on `usize` is modelled as the panic of a debug build, giving None. A release build wraps around instead; for a tuple with no variable-size member the wrapped offsets start is never used, so there `(y)` reads back.
- VariantValue.TupleChild: same as ChildAt. The `n_unsized_members - 1` underflow is modelled as the debug-build panic, not as the release build's wrap-around.
- `Variant::byteswap` is `todo!()` in the source and is not modelled.
- Floating point: `f64` is modelled only by its 64-bit pattern (`to_le_bytes` stores the little-endian bytes of `to_bits()`); floating-point values and arithmetic are not.
- File input: `from_file` and `from_file_mmap` read the file system. The model starts from the file's bytes (`from_bytes`).
- Error types: the `Display` and `Debug` text of the reader, writer and GResource error types is left out. Each error is its variant without the message.

## Findings

Each row below has two members. The as-written member is a lemma about the code as it stands; it shows the discrepancy on a named input. The corrected member is the evidently intended definition, with its property proved.

| source | as written | input that shows it | evidently intended | confidence | as-written member | corrected member |
|---|---|---|---|---|---|---|
| src/no_glib/variant_type.rs:353-357 | `string_length` counts `(` and the already-skipped `m` as opening, but not `{`, while `}` closes. A dict entry at the head is therefore reported as one character long | `{sv}` gives 1 | `{` opens a bracket, and `{sv}` gives 4 | not executed | VariantTypeLength.DictEntryLengthIsOne | VariantTypeLength.IntendedStringLengthOfPrinted |
| src/no_glib/variant_type.rs:390-393 | `?` tests `is_basic` on the whole rest of the subject, not on the one type at its head | `(y)` is not a subtype of `(?)` | `?` admits any one basic type, so `(y)` is a subtype of `(?)` | not executed | VariantSubtype.BasicWildcardInsideTuple | VariantSubtype.IntendedSubtypeIsAdmits |
| src/no_glib/variant_type.rs:399 | under `*`, a dict entry in the subject is skipped by `string_length`, which reports 1 (first row), so the walk gets out of step | `({uu}u)` is not a subtype of `(*u)` | `*` skips the whole dict entry, so `({uu}u)` is a subtype of `(*u)` | not executed | VariantSubtype.DictEntryUnderWildcard | VariantSubtype.IntendedSubtypeIsAdmits |
| src/no_glib/variant_type.rs:488-497 | the empty-tuple case tests for an empty type string, which cannot happen after `(` has been read, so `()` gets alignment 0. A tuple holding `()` then takes a remainder by 0 and panics | `()`; `(())` | `()` is a 1-byte fixed-size type with alignment 1 | not executed | VariantTypeInfo.EmptyTupleInfo, VariantTypeInfo.NestedEmptyTupleInfo | VariantTypeInfo.IntendedTypeInfo |
| src/no_glib/variant_type.rs:512-514 | the count of characters a tuple consumes leaves out its `)`, so the outer loop resumes at the inner `)` and ends the outer tuple there | `((y)u)` gets one member and alignment 1 | two members and alignment 4 | not executed | VariantTypeInfo.NestedTupleInfo | VariantTypeInfo.IntendedTypeInfo |
| src/no_glib/variant_type.rs:542-550 | the array case looks up only the one character after `a` | `aay` has no type info | an array of `ay`: alignment 1, variable size | not executed | VariantTypeInfo.ArrayOfArrayInfo | VariantTypeInfo.IntendedTypeInfo |
| src/no_glib/variant_type.rs:551 | there is no dict-entry case, so `{` falls to the default: unaligned, variable size, one character | `{yy}` | a 2-byte fixed-size pair with alignment 1 | not executed | VariantTypeInfo.DictEntryInfo | VariantTypeInfo.IntendedTypeInfo |
| src/no_glib/variant.rs:342-343 | for a tuple with no variable-size member, `n_unsized_members - 1` underflows before the offsets are read, which panics in a debug build (a release build wraps, and never uses the result for fixed-size members) | in a debug build, `(y)` built from the byte 7 cannot be taken apart | the offsets start at the end of the data, and member 0 is the byte 7 | not executed | VariantValue.FixedTupleChildPanics | VariantTuple.TupleRoundTrip |
| src/no_glib/variant.rs:387-391 | an end offset of 0 is taken to mean "no offset", so an empty member at the start of a tuple runs to the end of the data | `(ayy)` built from an empty array and the byte 5 gives back `[5, 0]` as its first member | the first member comes back empty | not executed | VariantValue.EmptyFirstTupleMember | VariantTuple.TupleRoundTrip |
| src/no_glib/variant.rs:248-251 | `n_children` of an array of variable-size elements reads an offset of width 0 from empty data, and panics | the empty `as` | the empty array has no children | not executed | VariantValue.EmptyVariableArrayPanics | VariantValue.VariableArrayRoundTrip |
| src/no_glib/variant_type.rs:479-486 | a maybe takes its element's fixed size, so a maybe of a fixed-size type counts as fixed-size though its Nothing is empty. `tuple_from_iter` then records no end offset for a Nothing, and the reader takes the next bytes for it | `(mys)` built from a Nothing and "hi" gives back a Just 'h' and "i" | a maybe is always of variable size: the Nothing's end offset is recorded, and the Nothing and "hi" come back | not executed | VariantValue.NothingMemberMisread | VariantTuple.IntendedTupleRoundTrip, VariantTuple.NothingMemberIntended |
| src/no_glib/variant_type.rs:522-539 | a fixed-size tuple's size stops where its last member ends, not padded to the tuple's alignment, and `tuple_from_iter` writes that many bytes | `(uy)` gets fixed size 5 | 8: the end rounded up to the alignment 4, with the writer padding the data with zeros to it | not executed | VariantTypeInfo.UnpaddedTupleInfo | VariantTypeInfo.TupleSizePadded, VariantTuple.IntendedTupleSize |
