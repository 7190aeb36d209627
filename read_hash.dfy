/**
 * A hash table inside a GVDB file (gvdb/src/read/hash.rs): the 8-byte table header, the
 * checks `for_bytes` makes before a table is used, the bloom filter, key lookup through the
 * bucket ranges and the parent chain, and the reconstruction of every full key.
 *
 * All structural integers of a table are little endian on every host, so nothing here
 * depends on the host's byte order. A table is only ever used after `for_bytes` accepted it;
 * `Valid` is what that acceptance establishes, and the offset helpers `get_hash` and
 * `get_hash_item_for_index` are proved unable to fail for the indices the lookups use.
 */
module ReadHash {
  import opened GvdbUtil
  import opened Wrappers
  import opened ReadError
  import opened Utf8
  import ReadPointer
  import ReadHashItem
  import ReadHeader
  import ReadFile
  import Endian

  type HashItem = ReadHashItem.HashItem

  const HASH_HEADER_SIZE: nat := 8
  /** Bloom word counts live in the low 27 bits of the first header word. */
  const BLOOM_LIMIT: nat := 0x800_0000

  /** The table header: the two words as `u32::from_le` returns them. */
  datatype HashHeader = HashHeader(bloomWord: u32, bucketsWord: u32)

  /**
   * `HashHeader::new`. The constructor asserts `n_bloom_words < 2^27`; the shift lands in the
   * high five bits (`bloom_shift << 27` drops everything above them), and the OR with a count
   * below 2^27 is an addition.
   */
  function NewHashHeader(bloomShift: u32, nBloomWords: u32, nBuckets: u32): (h: HashHeader)
    requires nBloomWords < BLOOM_LIMIT
    ensures NBloomWords(h) == nBloomWords && NBuckets(h) == nBuckets
    ensures h.bloomWord / BLOOM_LIMIT == bloomShift % 32
  {
    HashHeader((bloomShift % 32) * BLOOM_LIMIT + nBloomWords, nBuckets)
  }

  /** `HashHeader::n_bloom_words`: the low 27 bits. */
  function NBloomWords(h: HashHeader): (r: nat)
    ensures r < BLOOM_LIMIT
  {
    h.bloomWord % BLOOM_LIMIT
  }

  /** `HashHeader::n_buckets` */
  function NBuckets(h: HashHeader): nat
  {
    h.bucketsWord
  }

  /** The header's 8 bytes in the file. */
  function EncodeHashHeader(h: HashHeader): (r: bytes)
    ensures |r| == HASH_HEADER_SIZE
  {
    LeBytes32(h.bloomWord) + LeBytes32(h.bucketsWord)
  }

  /** `HashTable::hash_header` once the 8 bytes are there (`transmute_one`). */
  function DecodeHashHeader(b: bytes): HashHeader
    requires |b| == HASH_HEADER_SIZE
  {
    HashHeader(FromLe32(b[..4]), FromLe32(b[4..]))
  }

  lemma HashHeaderRoundTrip(h: HashHeader)
    ensures DecodeHashHeader(EncodeHashHeader(h)) == h
  {
    var b := EncodeHashHeader(h);
    assert b[..4] == LeBytes32(h.bloomWord) && b[4..] == LeBytes32(h.bucketsWord);
    LeBytes32RoundTrip(h.bloomWord);
    LeBytes32RoundTrip(h.bucketsWord);
  }

  lemma HashHeaderBytesRoundTrip(b: bytes)
    requires |b| == HASH_HEADER_SIZE
    ensures EncodeHashHeader(DecodeHashHeader(b)) == b
  {
    FromLe32RoundTrip(b[..4]);
    FromLe32RoundTrip(b[4..]);
    assert b == b[..4] + b[4..];
  }

  /** `HashTable::hash_header`: DataOffset when fewer than 8 bytes are there. */
  function HashHeaderOf(data: bytes): (r: Result<HashHeader, Error>)
    ensures r.Err? <==> |data| < HASH_HEADER_SIZE
    ensures r.Err? ==> r.error == DataOffset
  {
    if |data| < HASH_HEADER_SIZE then Err(DataOffset)
    else Ok(DecodeHashHeader(data[..HASH_HEADER_SIZE]))
  }

  /** Where the bucket words start: after the header and the bloom words. */
  function BucketsOffset(h: HashHeader): nat
  {
    HASH_HEADER_SIZE + 4 * NBloomWords(h)
  }

  /** `hash_items_offset`: after the header, the bloom words and the bucket words. */
  function ItemsOffset(h: HashHeader): nat
  {
    BucketsOffset(h) + 4 * NBuckets(h)
  }

  datatype HashTable = HashTable(file: ReadFile.File, pointer: ReadPointer.Pointer, header: HashHeader)

  /**
   * What `for_bytes` establishes and the lookups rely on: the table's bytes can be
   * dereferenced with alignment 4 and hold the header, bloom words and bucket words the
   * header announces, followed by a whole number of 24-byte items.
   */
  predicate Valid(t: HashTable)
  {
    var d := ReadFile.Dereference(t.file, t.pointer, 4);
    d.Ok? && ItemsOffset(t.header) <= |d.value|
    && (|d.value| - ItemsOffset(t.header)) % ReadHashItem.HASH_ITEM_SIZE == 0
  }

  /** `HashTable::for_bytes` */
  function ForBytes(pointer: ReadPointer.Pointer, file: ReadFile.File): (r: Result<HashTable, Error>)
    ensures r.Ok? ==> Valid(r.value) && r.value.pointer == pointer && r.value.file == file
    ensures r.Ok? ==> r.value.header == DecodeHashHeader(TableData(r.value)[..HASH_HEADER_SIZE])
  {
    var data :- ReadFile.Dereference(file, pointer, 4);
    var header :- HashHeaderOf(data);
    var t := HashTable(file, pointer, header);
    var itemsOffset := ItemsOffset(header);
    // `max` keeps the subtraction from underflowing
    var itemsLen := (if ReadPointer.Size(pointer) > itemsOffset then ReadPointer.Size(pointer) else itemsOffset)
                    - itemsOffset;
    var requiredLen := HASH_HEADER_SIZE + 4 * NBloomWords(header) + 4 * NBuckets(header) + itemsLen;
    if requiredLen > |data| then Err(Data(NotEnoughBytes))
    else if itemsLen % ReadHashItem.HASH_ITEM_SIZE != 0 then Err(Data(RemainingSizeInvalid))
    else Ok(t)
  }

  /**
   * `for_bytes` accepts exactly the ranges that dereference and hold a header whose bloom and
   * bucket words fit, followed by a whole number of items; it rejects the others with the
   * error of the first check that fails.
   */
  lemma ForBytesSpec(pointer: ReadPointer.Pointer, file: ReadFile.File)
    ensures var d := ReadFile.Dereference(file, pointer, 4);
      ForBytes(pointer, file).Ok? <==>
        d.Ok? && |d.value| >= HASH_HEADER_SIZE
        && ItemsOffset(DecodeHashHeader(d.value[..HASH_HEADER_SIZE])) <= |d.value|
        && (|d.value| - ItemsOffset(DecodeHashHeader(d.value[..HASH_HEADER_SIZE]))) % 24 == 0
    ensures var d := ReadFile.Dereference(file, pointer, 4);
      d.Err? ==> ForBytes(pointer, file) == Err(d.error)
    ensures var d := ReadFile.Dereference(file, pointer, 4);
      d.Ok? && |d.value| < HASH_HEADER_SIZE ==> ForBytes(pointer, file) == Err(DataOffset)
    ensures var d := ReadFile.Dereference(file, pointer, 4);
      d.Ok? && |d.value| >= HASH_HEADER_SIZE
      && ItemsOffset(DecodeHashHeader(d.value[..HASH_HEADER_SIZE])) > |d.value|
      ==> ForBytes(pointer, file) == Err(Data(NotEnoughBytes))
    ensures var d := ReadFile.Dereference(file, pointer, 4);
      d.Ok? && |d.value| >= HASH_HEADER_SIZE
      && ItemsOffset(DecodeHashHeader(d.value[..HASH_HEADER_SIZE])) <= |d.value|
      && (|d.value| - ItemsOffset(DecodeHashHeader(d.value[..HASH_HEADER_SIZE]))) % 24 != 0
      ==> ForBytes(pointer, file) == Err(Data(RemainingSizeInvalid))
  {
  }

  /** `HashTable::data`, which cannot fail for a table `for_bytes` accepted. */
  function TableData(t: HashTable): (r: bytes)
    requires Valid(t)
    ensures |r| == ReadPointer.Size(t.pointer) && |r| >= ItemsOffset(t.header)
  {
    ReadFile.Dereference(t.file, t.pointer, 4).value
  }

  /** `hash_items_end`: the end of the table, which is the pointer's size. */
  function ItemsEnd(t: HashTable): nat
  {
    ReadPointer.Size(t.pointer)
  }

  /** `n_hash_items` */
  function NHashItems(t: HashTable): (r: nat)
    requires Valid(t)
    ensures ItemsOffset(t.header) + ReadHashItem.HASH_ITEM_SIZE * r == ItemsEnd(t)
  {
    (ItemsEnd(t) - ItemsOffset(t.header)) / ReadHashItem.HASH_ITEM_SIZE
  }

  /** `get_u32`: the little-endian word at a byte offset of the table. */
  function GetU32(t: HashTable, offset: nat): (r: Result<u32, Error>)
    requires Valid(t)
    ensures r.Ok? <==> offset + 4 <= |TableData(t)|
    ensures r.Err? ==> r.error == DataOffset
    ensures r.Ok? ==> LeBytes32(r.value) == TableData(t)[offset..offset + 4]
  {
    var data := TableData(t);
    if offset + 4 <= |data| then
      FromLe32RoundTrip(data[offset..offset + 4]);
      Ok(FromLe32(data[offset..offset + 4]))
    else Err(DataOffset)
  }

  /** `get_bloom_word`: an index beyond the bloom words is a DataOffset error. */
  function GetBloomWord(t: HashTable, index: nat): (r: Result<u32, Error>)
    requires Valid(t)
    ensures r.Ok? <==> index < NBloomWords(t.header)
  {
    if index >= NBloomWords(t.header) then Err(DataOffset)
    else GetU32(t, HASH_HEADER_SIZE + 4 * index)
  }

  /** 2 to the power k. */
  function Pow2(k: nat): (r: nat)
    ensures r >= 1
  {
    if k == 0 then 1 else 2 * Pow2(k - 1)
  }

  /** `word & (1 << k) == 1 << k`: bit k of the word is set. */
  predicate BitSet(word: u32, k: nat)
  {
    (word / Pow2(k)) % 2 == 1
  }

  /**
   * `bloom_filter`. Without bloom words every hash passes. Otherwise the word is chosen by
   * `hash / 32`, and the two mask bits `hash & 31` and `(hash >> bloom_shift) & 31` are the
   * same bit because the shift is 0, so the filter tests that one bit.
   */
  function BloomFilter(t: HashTable, hashValue: u32): (r: bool)
    requires Valid(t)
    ensures NBloomWords(t.header) == 0 ==> r
  {
    var n := NBloomWords(t.header);
    if n == 0 then true
    else
      var word := (hashValue / 32) % n;
      // the index is below n_bloom_words, so `unwrap` cannot panic
      var bloomWord := GetBloomWord(t, word).value;
      BitSet(bloomWord, hashValue % 32)
  }

  /** `get_hash`: the start index stored in bucket word `index`. */
  function GetHash(t: HashTable, index: nat): (r: Result<u32, Error>)
    requires Valid(t)
    ensures index < NBuckets(t.header) ==> r.Ok?
  {
    GetU32(t, BucketsOffset(t.header) + 4 * index)
  }

  /** The records of an item region, decoded 24 bytes at a time. */
  function DecodeItems(b: bytes): (r: seq<HashItem>)
    ensures |r| == |b| / ReadHashItem.HASH_ITEM_SIZE
    decreases |b|
  {
    if |b| < ReadHashItem.HASH_ITEM_SIZE then []
    else [ReadHashItem.Decode(b[..ReadHashItem.HASH_ITEM_SIZE])] + DecodeItems(b[ReadHashItem.HASH_ITEM_SIZE..])
  }

  lemma {:induction false} DecodeItemsIndex(b: bytes, i: nat)
    requires i < |b| / ReadHashItem.HASH_ITEM_SIZE
    ensures 24 * i + 24 <= |b|
    ensures DecodeItems(b)[i] == ReadHashItem.Decode(b[24 * i..24 * i + 24])
  {
    if i > 0 {
      DecodeItemsIndex(b[24..], i - 1);
      assert b[24..][24 * (i - 1)..24 * (i - 1) + 24] == b[24 * i..24 * i + 24];
    }
  }

  /** The items of a table, in index order. */
  function Items(t: HashTable): (r: seq<HashItem>)
    requires Valid(t)
    ensures |r| == NHashItems(t)
  {
    DecodeItems(TableData(t)[ItemsOffset(t.header)..])
  }

  /** The item at an index below `n_hash_items`. */
  function ItemAt(t: HashTable, index: nat): HashItem
    requires Valid(t) && index < NHashItems(t)
  {
    Items(t)[index]
  }

  /** `get_hash_item_for_index`: the 24-byte record at an item index. */
  function GetHashItemForIndex(t: HashTable, index: nat): (r: Result<HashItem, Error>)
    requires Valid(t)
    ensures r.Ok? <==> index < NHashItems(t)
    ensures r.Ok? ==> r.value == ItemAt(t, index)
    ensures r.Err? ==> r.error == DataOffset
  {
    var data := TableData(t);
    var start := ItemsOffset(t.header) + ReadHashItem.HASH_ITEM_SIZE * index;
    if start + ReadHashItem.HASH_ITEM_SIZE <= |data| then
      DecodeItemsIndex(data[ItemsOffset(t.header)..], index);
      SliceOfSuffix(data, ItemsOffset(t.header), 24 * index, 24 * index + 24);
      Ok(ReadHashItem.Decode(data[start..start + ReadHashItem.HASH_ITEM_SIZE]))
    else Err(DataOffset)
  }

  /** `get_key`: the stored key segment of an item, which must be well-formed UTF-8. */
  function GetKey(t: HashTable, item: HashItem): (r: Result<bytes, Error>)
    ensures r.Ok? ==> ValidUtf8(r.value)
    ensures r.Ok? <==> ReadFile.Dereference(t.file, ReadHashItem.KeyPtr(item), 1).Ok?
                       && ValidUtf8(ReadFile.Dereference(t.file, ReadHashItem.KeyPtr(item), 1).value)
  {
    var data :- ReadFile.Dereference(t.file, ReadHashItem.KeyPtr(item), 1);
    if ValidUtf8(data) then Ok(data) else Err(Utf8)
  }

  predicate EndsWith(s: bytes, suffix: bytes)
  {
    |suffix| <= |s| && s[|s| - |suffix|..] == suffix
  }

  /** A string that ends with a suffix is what precedes the suffix, then the suffix. */
  lemma EndsWithSplit(s: bytes, suffix: bytes)
    requires EndsWith(s, suffix)
    ensures s[..|s| - |suffix|] + suffix == s
  {
    assert s == s[..|s| - |suffix|] + s[|s| - |suffix|..];
  }

  lemma SliceOfSuffix(data: bytes, off: nat, i: nat, j: nat)
    requires off <= |data| && i <= j <= |data| - off
    ensures data[off..][i..j] == data[off + i..off + j]
  {
  }

  /**
   * Reference meaning of a full name: following `depth` parents from `item`, the stored key
   * segments spell `key` (the first segment last) and the chain ends at a root item, whose
   * parent is 0xffffffff.
   */
  predicate NamedAs(t: HashTable, item: HashItem, key: bytes, depth: nat)
    requires Valid(t)
    decreases depth
  {
    var k := GetKey(t, item);
    k.Ok? && EndsWith(key, k.value) &&
    if item.parent == U32_MAX then depth == 0 && key == k.value
    else depth > 0 && item.parent < NHashItems(t)
         && NamedAs(t, ItemAt(t, item.parent), key[..|key| - |k.value|], depth - 1)
  }

  /** Every stored segment along the first `depth` parents of the chain is readable and non-empty. */
  predicate SegmentsNonEmpty(t: HashTable, item: HashItem, depth: nat)
    requires Valid(t)
    decreases depth
  {
    GetKey(t, item).Ok? && |GetKey(t, item).value| > 0
    && (depth > 0 && item.parent < NHashItems(t) ==> SegmentsNonEmpty(t, ItemAt(t, item.parent), depth - 1))
  }

  /**
   * `check_name`. The source recurses without bound when an empty key segment sits in a
   * parent cycle; the model counts consecutive empty segments in `budget` (restored to
   * `n_hash_items` by every non-empty one) and answers false once more empty segments follow
   * each other than there are items, which can only happen inside such a cycle.
   */
  function CheckName(t: HashTable, item: HashItem, key: bytes, budget: nat): (r: bool)
    requires Valid(t) && ValidUtf8(key)
    ensures GetKey(t, item).Err? ==> !r
    ensures item.parent != U32_MAX && item.parent >= NHashItems(t) ==> !r
    decreases |key|, budget
  {
    match GetKey(t, item)
    case Err(_) => false
    case Ok(thisKey) =>
      if !EndsWith(key, thisKey) then false
      else if |key| == |thisKey| && item.parent == U32_MAX then true
      else if item.parent < NHashItems(t) && |key| > 0 then
        var parentItem := ItemAt(t, item.parent);
        var parentKey := key[..|key| - |thisKey|];
        // the cut falls on a character boundary, so slicing the &str cannot panic
        EndsWithSplit(key, thisKey);
        PrefixValid(parentKey, thisKey);
        if |thisKey| > 0 then CheckName(t, parentItem, parentKey, NHashItems(t))
        else if budget == 0 then false
        else CheckName(t, parentItem, parentKey, budget - 1)
      else false
  }

  /** `check_name` as `get_hash_item` calls it. */
  function CheckNameTop(t: HashTable, item: HashItem, key: bytes): bool
    requires Valid(t) && ValidUtf8(key)
  {
    CheckName(t, item, key, NHashItems(t))
  }

  /** One step of `check_name` from an item that is not a root to its parent. */
  lemma CheckNameStep(t: HashTable, item: HashItem, key: bytes, budget: nat)
    requires Valid(t) && ValidUtf8(key)
    requires GetKey(t, item).Ok? && EndsWith(key, GetKey(t, item).value)
    requires item.parent != U32_MAX && item.parent < NHashItems(t) && |key| > 0
    ensures var thisKey := GetKey(t, item).value;
      var parentKey := key[..|key| - |thisKey|];
      ValidUtf8(parentKey) &&
      CheckName(t, item, key, budget) ==
        if |thisKey| > 0 then CheckName(t, ItemAt(t, item.parent), parentKey, NHashItems(t))
        else budget > 0 && CheckName(t, ItemAt(t, item.parent), parentKey, budget - 1)
  {
    var thisKey := GetKey(t, item).value;
    EndsWithSplit(key, thisKey);
    PrefixValid(key[..|key| - |thisKey|], thisKey);
  }

  /** One step of a full name from an item that is not a root to its parent. */
  lemma NamedAsStep(t: HashTable, item: HashItem, key: bytes, depth: nat)
    requires Valid(t) && NamedAs(t, item, key, depth) && item.parent != U32_MAX
    ensures GetKey(t, item).Ok? && EndsWith(key, GetKey(t, item).value)
    ensures depth > 0 && item.parent < NHashItems(t)
    ensures NamedAs(t, ItemAt(t, item.parent), key[..|key| - |GetKey(t, item).value|], depth - 1)
  {
  }

  /** Whatever `check_name` accepts is a full name of the item up a parent chain to a root. */
  lemma {:induction false} CheckNameSound(t: HashTable, item: HashItem, key: bytes, budget: nat)
    requires Valid(t) && ValidUtf8(key)
    requires CheckName(t, item, key, budget)
    ensures exists d :: NamedAs(t, item, key, d)
    decreases |key|, budget
  {
    var thisKey := GetKey(t, item).value;
    if |key| == |thisKey| && item.parent == U32_MAX {
      assert key == key[|key| - |thisKey|..];
      assert NamedAs(t, item, key, 0);
    } else {
      var parentItem := ItemAt(t, item.parent);
      var parentKey := key[..|key| - |thisKey|];
      CheckNameStep(t, item, key, budget);
      if |thisKey| > 0 {
        CheckNameSound(t, parentItem, parentKey, NHashItems(t));
      } else {
        CheckNameSound(t, parentItem, parentKey, budget - 1);
      }
      var d: nat :| NamedAs(t, parentItem, parentKey, d);
      assert NamedAs(t, item, key, d + 1);
    }
  }

  /**
   * Conversely, a full name along a chain of non-empty segments is accepted, whatever the
   * budget.
   */
  lemma {:induction false} CheckNameComplete(t: HashTable, item: HashItem, key: bytes, depth: nat, budget: nat)
    requires Valid(t) && ValidUtf8(key)
    requires NamedAs(t, item, key, depth) && SegmentsNonEmpty(t, item, depth)
    ensures CheckName(t, item, key, budget)
    decreases depth
  {
    if item.parent != U32_MAX {
      NamedAsStep(t, item, key, depth);
      var thisKey := GetKey(t, item).value;
      CheckNameStep(t, item, key, budget);
      CheckNameComplete(t, ItemAt(t, item.parent), key[..|key| - |thisKey|], depth - 1, NHashItems(t));
    }
  }

  /** An item that `get_hash_item` stops at: the hash matches and the full name checks out. */
  predicate Matches(t: HashTable, key: bytes, hashValue: u32, index: nat)
    requires Valid(t) && ValidUtf8(key) && index < NHashItems(t)
  {
    ItemAt(t, index).hashValue == hashValue && CheckNameTop(t, ItemAt(t, index), key)
  }

  /** The start index stored in a bucket word; `get_hash` cannot fail for a bucket in range. */
  function BucketStart(t: HashTable, bucket: nat): u32
    requires Valid(t) && bucket < NBuckets(t.header)
  {
    GetHash(t, bucket).value
  }

  /**
   * The item indices `get_hash_item` scans for a hash: from the bucket's start to the next
   * bucket's start, or to the end for the last bucket, capped at `n_hash_items`.
   */
  function BucketRange(t: HashTable, hashValue: u32): (r: (nat, nat))
    requires Valid(t) && NBuckets(t.header) > 0
    ensures r.1 <= NHashItems(t)
  {
    var n := NBuckets(t.header);
    var bucket := BucketOf(hashValue, n);
    var lastno := if bucket == n - 1 then NHashItems(t)
                  else if BucketStart(t, bucket + 1) < NHashItems(t) then BucketStart(t, bucket + 1)
                  else NHashItems(t);
    (BucketStart(t, bucket), lastno)
  }

  /** The `while itemno < lastno` scan of `get_hash_item`. */
  function Scan(t: HashTable, key: bytes, hashValue: u32, itemno: nat, lastno: nat): (r: Result<HashItem, Error>)
    requires Valid(t) && ValidUtf8(key) && lastno <= NHashItems(t)
    ensures r.Err? ==> r.error == KeyNotFound(key)
    decreases lastno - itemno
  {
    if itemno >= lastno then Err(KeyNotFound(key))
    else if Matches(t, key, hashValue, itemno) then Ok(ItemAt(t, itemno))
    else Scan(t, key, hashValue, itemno + 1, lastno)
  }

  /** What the scan returns is a matching item of the range. */
  lemma {:induction false} ScanSound(t: HashTable, key: bytes, hashValue: u32, itemno: nat, lastno: nat)
    requires Valid(t) && ValidUtf8(key) && lastno <= NHashItems(t)
    requires Scan(t, key, hashValue, itemno, lastno).Ok?
    ensures exists i :: itemno <= i < lastno && ItemAt(t, i) == Scan(t, key, hashValue, itemno, lastno).value
                        && Matches(t, key, hashValue, i)
    decreases lastno - itemno
  {
    if !Matches(t, key, hashValue, itemno) {
      ScanSound(t, key, hashValue, itemno + 1, lastno);
    }
  }

  /** The scan stops at the first matching index of the range. */
  lemma {:induction false} ScanFindsFirst(t: HashTable, key: bytes, hashValue: u32, itemno: nat, lastno: nat, i: nat)
    requires Valid(t) && ValidUtf8(key) && lastno <= NHashItems(t)
    requires itemno <= i < lastno && Matches(t, key, hashValue, i)
    requires forall j :: itemno <= j < i ==> !Matches(t, key, hashValue, j)
    ensures Scan(t, key, hashValue, itemno, lastno) == Ok(ItemAt(t, i))
    decreases i - itemno
  {
    if itemno < i {
      ScanFindsFirst(t, key, hashValue, itemno + 1, lastno, i);
    }
  }

  /** A scan past an index that does not match goes on at the next index. */
  lemma ScanSkips(t: HashTable, key: bytes, hashValue: u32, itemno: nat, lastno: nat)
    requires Valid(t) && ValidUtf8(key) && itemno < lastno <= NHashItems(t)
    requires !Matches(t, key, hashValue, itemno)
    ensures Scan(t, key, hashValue, itemno, lastno) == Scan(t, key, hashValue, itemno + 1, lastno)
  {
  }

  /** The specification of `get_hash_item`. */
  function Lookup(t: HashTable, key: bytes): (r: Result<HashItem, Error>)
    requires Valid(t) && ValidUtf8(key)
    ensures r.Err? ==> r.error == KeyNotFound(key)
    ensures NBuckets(t.header) == 0 || NHashItems(t) == 0 ==> r.Err?
  {
    if NBuckets(t.header) == 0 || NHashItems(t) == 0 then Err(KeyNotFound(key))
    else
      var hashValue := DjbHash(key);
      if !BloomFilter(t, hashValue) then Err(KeyNotFound(key))
      else
        var range := BucketRange(t, hashValue);
        Scan(t, key, hashValue, range.0, range.1)
  }

  /**
   * Whatever `get_hash_item` returns carries the key's hash and passes `check_name`, and it is
   * an item of the key's bucket range, which the bloom filter let through.
   */
  lemma LookupSound(t: HashTable, key: bytes)
    requires Valid(t) && ValidUtf8(key) && Lookup(t, key).Ok?
    ensures Lookup(t, key).value.hashValue == DjbHash(key) && CheckNameTop(t, Lookup(t, key).value, key)
    ensures NBuckets(t.header) > 0 && BloomFilter(t, DjbHash(key))
    ensures exists i :: BucketRange(t, DjbHash(key)).0 <= i < BucketRange(t, DjbHash(key)).1
                        && ItemAt(t, i) == Lookup(t, key).value
  {
    var range := BucketRange(t, DjbHash(key));
    ScanSound(t, key, DjbHash(key), range.0, range.1);
  }

  /**
   * Lookup finds an item whose name checks out when it is the first match of the key's
   * bucket range and the bloom filter lets the hash through.
   */
  lemma LookupFinds(t: HashTable, key: bytes, i: nat)
    requires Valid(t) && ValidUtf8(key)
    requires NBuckets(t.header) > 0 && BloomFilter(t, DjbHash(key))
    requires BucketRange(t, DjbHash(key)).0 <= i < BucketRange(t, DjbHash(key)).1
    requires Matches(t, key, DjbHash(key), i)
    requires forall j :: BucketRange(t, DjbHash(key)).0 <= j < i ==> !Matches(t, key, DjbHash(key), j)
    ensures Lookup(t, key) == Ok(ItemAt(t, i))
  {
    var range := BucketRange(t, DjbHash(key));
    ScanFindsFirst(t, key, DjbHash(key), range.0, range.1, i);
  }

  lemma LookupIsScan(t: HashTable, key: bytes)
    requires Valid(t) && ValidUtf8(key)
    requires NBuckets(t.header) > 0 && NHashItems(t) > 0 && BloomFilter(t, DjbHash(key))
    ensures var range := BucketRange(t, DjbHash(key));
      Lookup(t, key) == Scan(t, key, DjbHash(key), range.0, range.1)
  {
  }

  /** The bucket bounds `get_hash_item` computes before it scans. */
  method GetBucketRange(t: HashTable, hashValue: u32) returns (itemno: nat, lastno: nat)
    requires Valid(t) && NBuckets(t.header) > 0
    ensures (itemno, lastno) == BucketRange(t, hashValue)
  {
    var n := NBuckets(t.header);
    var bucket := hashValue % n;
    itemno := GetHash(t, bucket).value;
    if bucket == n - 1 {
      lastno := NHashItems(t);
    } else {
      var next := GetHash(t, bucket + 1).value;
      lastno := if next < NHashItems(t) then next else NHashItems(t);
    }
  }

  /** The `while itemno < lastno` loop of `get_hash_item`. */
  method ScanLoop(t: HashTable, key: bytes, hashValue: u32, itemno: nat, lastno: nat)
    returns (r: Result<HashItem, Error>)
    requires Valid(t) && ValidUtf8(key) && lastno <= NHashItems(t)
    ensures r == Scan(t, key, hashValue, itemno, lastno)
  {
    var i := itemno;
    while i < lastno
      invariant Scan(t, key, hashValue, i, lastno) == Scan(t, key, hashValue, itemno, lastno)
      decreases lastno - i
    {
      var item := GetHashItemForIndex(t, i).value;
      if hashValue == item.hashValue && CheckNameTop(t, item, key) {
        return Ok(item);
      }
      ScanSkips(t, key, hashValue, i, lastno);
      i := i + 1;
    }
    return Err(KeyNotFound(key));
  }

  /** `get_hash_item` */
  method GetHashItem(t: HashTable, key: bytes) returns (r: Result<HashItem, Error>)
    requires Valid(t) && ValidUtf8(key)
    ensures r == Lookup(t, key)
  {
    if NBuckets(t.header) == 0 || NHashItems(t) == 0 {
      return Err(KeyNotFound(key));
    }
    var hashValue := DjbHashLoop(key);
    if !BloomFilter(t, hashValue) {
      return Err(KeyNotFound(key));
    }
    var itemno, lastno := GetBucketRange(t, hashValue);
    LookupIsScan(t, key);
    r := ScanLoop(t, key, hashValue, itemno, lastno);
  }

  /** `get_bytes`: the payload of a Value item, dereferenced with alignment 8. */
  function GetBytes(t: HashTable, key: bytes): (r: Result<bytes, Error>)
    requires Valid(t) && ValidUtf8(key)
    ensures r.Ok? ==> Lookup(t, key).Ok? && ReadHashItem.Typ(Lookup(t, key).value) == Ok(ReadHashItem.Value)
                      && r == ReadFile.Dereference(t.file, Lookup(t, key).value.value, 8)
    ensures Lookup(t, key).Err? ==> r == Lookup(t, key).PropagateFailure()
    ensures Lookup(t, key).Ok? && ReadHashItem.Typ(Lookup(t, key).value).Ok?
            && ReadHashItem.Typ(Lookup(t, key).value) != Ok(ReadHashItem.Value)
            ==> r == Err(Data(NotAValue))
  {
    var item :- Lookup(t, key);
    var typ :- ReadHashItem.Typ(item);
    if typ == ReadHashItem.Value then ReadFile.Dereference(t.file, item.value, 8)
    else
      // the message's `get_key(&item)?` cannot fail: the item's name was just checked
      Err(Data(NotAValue))
  }

  /** `get_hash_table`: the sub-table of a HashTable item, checked by `for_bytes`. */
  function GetHashTable(t: HashTable, key: bytes): (r: Result<HashTable, Error>)
    requires Valid(t) && ValidUtf8(key)
    ensures r.Ok? ==> Lookup(t, key).Ok? && ReadHashItem.Typ(Lookup(t, key).value) == Ok(ReadHashItem.HashTable)
                      && Valid(r.value) && r.value.file == t.file && r.value.pointer == Lookup(t, key).value.value
    ensures Lookup(t, key).Err? ==> r == Lookup(t, key).PropagateFailure()
    ensures Lookup(t, key).Ok? && ReadHashItem.Typ(Lookup(t, key).value).Ok?
            && ReadHashItem.Typ(Lookup(t, key).value) != Ok(ReadHashItem.HashTable)
            ==> r == Err(Data(NotAHashTable))
  {
    var item :- Lookup(t, key);
    var typ :- ReadHashItem.Typ(item);
    if typ == ReadHashItem.HashTable then ForBytes(item.value, t.file)
    else
      // the message's `get_key(&item)?` cannot fail: the item's name was just checked
      Err(Data(NotAHashTable))
  }

  /** `File::hash_table`: the root pointer of the header opened as a table. */
  function FileHashTable(file: ReadFile.File, host: Endian.Endian): (r: Result<HashTable, Error>)
    ensures |file.data| < ReadHeader.HEADER_SIZE ==> r == Err(DataOffset)
    ensures r.Ok? ==> Valid(r.value) && r.value.file == file
                      && r.value.pointer == ReadHeader.Root(ReadFile.GetHeader(file, host).value)
  {
    var header :- ReadFile.GetHeader(file, host);
    ForBytes(ReadHeader.Root(header), file)
  }

  /** The smallest file opens, but its root (0,0) holds no table header: DataOffset. */
  lemma MinimalFileHasNoTable()
    ensures var data := ReadHeader.Encode(ReadHeader.New(false, 0, ReadPointer.NULL, Endian.Little), Endian.Little);
      FileHashTable(ReadFile.File(data, false), Endian.Little) == Err(DataOffset)
  {
    var h := ReadHeader.New(false, 0, ReadPointer.NULL, Endian.Little);
    var data := ReadHeader.Encode(h, Endian.Little);
    ReadHeader.DecodeEncode(h, Endian.Little);
    assert data[..ReadHeader.HEADER_SIZE] == data;
  }

  // ---------------------------------------------------------------------------------------
  // get_names

  /** The number of resolved names. */
  function CountSome(names: seq<Option<bytes>>): (r: nat)
    ensures r <= |names|
  {
    if names == [] then 0 else (if names[0].Some? then 1 else 0) + CountSome(names[1..])
  }

  lemma {:induction false} CountSomeNone(n: nat)
    ensures CountSome(seq(n, _ => None)) == 0
  {
    if n > 0 {
      var s: seq<Option<bytes>> := seq(n, _ => None);
      assert s[1..] == seq(n - 1, _ => None);
      CountSomeNone(n - 1);
    }
  }

  /** Resolving one more name counts one more. */
  lemma {:induction false} CountSomeUpdate(names: seq<Option<bytes>>, i: nat, name: bytes)
    requires i < |names| && names[i].None?
    ensures CountSome(names[i := Some(name)]) == CountSome(names) + 1
  {
    if i == 0 {
      assert names[i := Some(name)][1..] == names[1..];
    } else {
      assert names[i := Some(name)][1..] == names[1..][i - 1 := Some(name)];
      CountSomeUpdate(names[1..], i - 1, name);
    }
  }

  /** When every entry counts, every name is resolved. */
  lemma {:induction false} CountSomeFull(names: seq<Option<bytes>>)
    requires CountSome(names) == |names|
    ensures forall i :: 0 <= i < |names| ==> names[i].Some?
  {
    if names != [] {
      CountSomeFull(names[1..]);
      assert forall i :: 1 <= i < |names| ==> names[i] == names[1..][i - 1];
    }
  }

  function Unwrap(names: seq<Option<bytes>>): (r: seq<bytes>)
    requires forall i :: 0 <= i < |names| ==> names[i].Some?
    ensures |r| == |names| && forall i :: 0 <= i < |r| ==> names[i] == Some(r[i])
  {
    seq(|names|, i requires 0 <= i < |names| => names[i].value)
  }

  /**
   * How a resolved name relates to its item: a root item's name is its stored key, any other
   * item's name is its parent's resolved name followed by its stored key.
   */
  predicate NameRelation(t: HashTable, names: seq<Option<bytes>>, i: nat)
    requires Valid(t) && |names| == NHashItems(t) && i < |names| && names[i].Some?
  {
    var item := ItemAt(t, i);
    GetKey(t, item).Ok? &&
    if item.parent == U32_MAX then names[i].value == GetKey(t, item).value
    else item.parent < |names| && names[item.parent].Some?
         && names[i].value == names[item.parent].value + GetKey(t, item).value
  }

  predicate NamesConsistent(t: HashTable, names: seq<Option<bytes>>)
    requires Valid(t) && |names| == NHashItems(t)
  {
    forall i :: 0 <= i < |names| && names[i].Some? ==> NameRelation(t, names, i)
  }

  /**
   * One `for index in 0..count` pass of `get_names` from `index` on: every unresolved item
   * whose parent is the root marker or already resolved gets its name.
   */
  function NamesPass(t: HashTable, names: seq<Option<bytes>>, inserted: nat, index: nat)
    : (r: Result<(seq<Option<bytes>>, nat), Error>)
    requires Valid(t) && |names| == NHashItems(t) && index <= |names|
    requires inserted == CountSome(names)
    ensures r.Ok? ==> |r.value.0| == |names| && r.value.1 == CountSome(r.value.0) && r.value.1 >= inserted
    decreases |names| - index
  {
    var count := |names|;
    if index == count then Ok((names, inserted))
    else
      var item := ItemAt(t, index);
      var parent := item.parent;
      if names[index].None? then
        if parent == U32_MAX then
          var name :- GetKey(t, item);
          CountSomeUpdate(names, index, name);
          NamesPass(t, names[index := Some(name)], inserted + 1, index + 1)
        else if parent < count && names[parent].Some? then
          var name :- GetKey(t, item);
          CountSomeUpdate(names, index, names[parent].value + name);
          NamesPass(t, names[index := Some(names[parent].value + name)], inserted + 1, index + 1)
        else if parent > count then Err(Data(ParentInvalidOffset(parent)))
        else NamesPass(t, names, inserted, index + 1)
      else NamesPass(t, names, inserted, index + 1)
  }

  /** The `while inserted < count` loop of `get_names`: passes until all resolve or one stalls. */
  function NamesLoop(t: HashTable, names: seq<Option<bytes>>, inserted: nat): (r: Result<seq<bytes>, Error>)
    requires Valid(t) && |names| == NHashItems(t) && inserted == CountSome(names)
    ensures r.Ok? ==> |r.value| == |names|
    decreases |names| - inserted
  {
    if inserted >= |names| then
      CountSomeFull(names);
      Ok(Unwrap(names))
    else
      var pass :- NamesPass(t, names, inserted, 0);
      if pass.1 == inserted then Err(Data(ParentLoop))
      else NamesLoop(t, pass.0, pass.1)
  }

  /** The specification of `get_names`. */
  function Names(t: HashTable): (r: Result<seq<bytes>, Error>)
    requires Valid(t)
  {
    CountSomeNone(NHashItems(t));
    NamesLoop(t, seq(NHashItems(t), _ => None), 0)
  }

  function Wrap(names: seq<bytes>): (r: seq<Option<bytes>>)
    ensures |r| == |names| && forall i :: 0 <= i < |names| ==> r[i] == Some(names[i])
  {
    seq(|names|, i requires 0 <= i < |names| => Some(names[i]))
  }

  /** An item a pass resolves: still unnamed, and its parent is the root marker or already named. */
  predicate Resolvable(t: HashTable, names: seq<Option<bytes>>, index: nat)
    requires Valid(t) && |names| == NHashItems(t) && index < |names|
  {
    var parent := ItemAt(t, index).parent;
    names[index].None? && (parent == U32_MAX || (parent < |names| && names[parent].Some?))
  }

  /** The name a pass gives a resolvable item whose key reads. */
  function ResolvedName(t: HashTable, names: seq<Option<bytes>>, index: nat): bytes
    requires Valid(t) && |names| == NHashItems(t) && index < |names|
    requires Resolvable(t, names, index) && GetKey(t, ItemAt(t, index)).Ok?
  {
    var item := ItemAt(t, index);
    if item.parent == U32_MAX then GetKey(t, item).value
    else names[item.parent].value + GetKey(t, item).value
  }

  /** Resolving one more name keeps the resolved names consistent. */
  lemma UpdateKeepsConsistent(t: HashTable, names: seq<Option<bytes>>, index: nat)
    requires Valid(t) && |names| == NHashItems(t) && index < |names|
    requires Resolvable(t, names, index) && GetKey(t, ItemAt(t, index)).Ok?
    requires NamesConsistent(t, names)
    ensures NamesConsistent(t, names[index := Some(ResolvedName(t, names, index))])
  {
    var names' := names[index := Some(ResolvedName(t, names, index))];
    forall i | 0 <= i < |names'| && names'[i].Some?
      ensures NameRelation(t, names', i)
    {
      if i != index {
        assert NameRelation(t, names, i);
        var parent := ItemAt(t, i).parent;
        if parent != U32_MAX {
          assert names'[parent] == names[parent];
        }
      }
    }
  }

  /** One step of a pass at an item that gets its name: the key reads and the pass goes on with it. */
  lemma NamesPassResolves(t: HashTable, names: seq<Option<bytes>>, inserted: nat, index: nat)
    requires Valid(t) && |names| == NHashItems(t) && index < |names| && inserted == CountSome(names)
    requires NamesPass(t, names, inserted, index).Ok? && Resolvable(t, names, index)
    ensures GetKey(t, ItemAt(t, index)).Ok?
    ensures var names' := names[index := Some(ResolvedName(t, names, index))];
      CountSome(names') == inserted + 1
      && NamesPass(t, names, inserted, index) == NamesPass(t, names', inserted + 1, index + 1)
  {
    CountSomeUpdate(names, index, ResolvedName(t, names, index));
  }

  /** One step of a pass at an item that stays unresolved: the pass goes on unchanged. */
  lemma NamesPassSkips(t: HashTable, names: seq<Option<bytes>>, inserted: nat, index: nat)
    requires Valid(t) && |names| == NHashItems(t) && index < |names| && inserted == CountSome(names)
    requires NamesPass(t, names, inserted, index).Ok? && !Resolvable(t, names, index)
    ensures NamesPass(t, names, inserted, index) == NamesPass(t, names, inserted, index + 1)
  {
  }

  /** A pass only adds names, and each added name stands in NameRelation to its item. */
  lemma {:induction false} NamesPassConsistent(t: HashTable, names: seq<Option<bytes>>, inserted: nat, index: nat)
    requires Valid(t) && |names| == NHashItems(t) && index <= |names| && inserted == CountSome(names)
    requires NamesConsistent(t, names) && NamesPass(t, names, inserted, index).Ok?
    ensures NamesConsistent(t, NamesPass(t, names, inserted, index).value.0)
    decreases |names| - index, 1
  {
    if index < |names| {
      if Resolvable(t, names, index) {
        ResolvedStepConsistent(t, names, inserted, index);
      } else {
        SkippedStepConsistent(t, names, inserted, index);
      }
    }
  }

  /** The step of NamesPassConsistent at an item that stays unresolved. */
  lemma {:induction false} SkippedStepConsistent(t: HashTable, names: seq<Option<bytes>>, inserted: nat, index: nat)
    requires Valid(t) && |names| == NHashItems(t) && index < |names| && inserted == CountSome(names)
    requires NamesConsistent(t, names) && NamesPass(t, names, inserted, index).Ok? && !Resolvable(t, names, index)
    ensures NamesConsistent(t, NamesPass(t, names, inserted, index).value.0)
    decreases |names| - index, 0
  {
    NamesPassSkips(t, names, inserted, index);
    NamesPassConsistent(t, names, inserted, index + 1);
  }

  /** The step of NamesPassConsistent at an item that gets its name. */
  lemma {:induction false} ResolvedStepConsistent(t: HashTable, names: seq<Option<bytes>>, inserted: nat, index: nat)
    requires Valid(t) && |names| == NHashItems(t) && index < |names| && inserted == CountSome(names)
    requires NamesConsistent(t, names) && NamesPass(t, names, inserted, index).Ok? && Resolvable(t, names, index)
    ensures NamesConsistent(t, NamesPass(t, names, inserted, index).value.0)
    decreases |names| - index, 0
  {
    NamesPassResolves(t, names, inserted, index);
    UpdateKeepsConsistent(t, names, index);
    NamesPassConsistent(t, names[index := Some(ResolvedName(t, names, index))], inserted + 1, index + 1);
  }

  /** Consistency survives the passes up to the result. */
  lemma {:induction false} NamesLoopConsistent(t: HashTable, names: seq<Option<bytes>>, inserted: nat)
    requires Valid(t) && |names| == NHashItems(t) && inserted == CountSome(names)
    requires NamesConsistent(t, names) && NamesLoop(t, names, inserted).Ok?
    ensures NamesConsistent(t, Wrap(NamesLoop(t, names, inserted).value))
    decreases |names| - inserted
  {
    if inserted >= |names| {
      CountSomeFull(names);
      assert Wrap(Unwrap(names)) == names;
    } else {
      var pass := NamesPass(t, names, inserted, 0).value;
      NamesPassConsistent(t, names, inserted, 0);
      NamesLoopConsistent(t, pass.0, pass.1);
    }
  }

  /**
   * `get_names` returns one name per item, and each is its parent's name followed by its own
   * stored key (just the stored key for a root item); every parent is in range.
   */
  lemma NamesSpec(t: HashTable)
    requires Valid(t)
    ensures Names(t).Ok? ==>
      var names := Names(t).value;
      |names| == NHashItems(t) &&
      forall i :: 0 <= i < |names| ==>
        var item := ItemAt(t, i);
        GetKey(t, item).Ok? &&
        if item.parent == U32_MAX then names[i] == GetKey(t, item).value
        else item.parent < |names| && names[i] == names[item.parent] + GetKey(t, item).value
  {
    var n := NHashItems(t);
    CountSomeNone(n);
    var empty: seq<Option<bytes>> := seq(n, _ => None);
    assert NamesConsistent(t, empty);
    if Names(t).Ok? {
      var names := Names(t).value;
      NamesLoopConsistent(t, empty, 0);
      forall i | 0 <= i < n
        ensures var item := ItemAt(t, i);
          GetKey(t, item).Ok? &&
          if item.parent == U32_MAX then names[i] == GetKey(t, item).value
          else item.parent < n && names[i] == names[item.parent] + GetKey(t, item).value
      {
        assert NameRelation(t, Wrap(names), i);
      }
    }
  }

  /** An item whose parent is neither the root marker nor an item index makes `get_names` fail. */
  lemma NamesRejectsBadParent(t: HashTable, i: nat)
    requires Valid(t) && i < NHashItems(t)
    requires ItemAt(t, i).parent != U32_MAX && ItemAt(t, i).parent >= NHashItems(t)
    ensures Names(t).Err?
  {
    NamesSpec(t);
  }

  /** Before the first item with an out-of-range parent, every unresolved item's key reads. */
  lemma {:induction false} PassHitsBadParent(t: HashTable, names: seq<Option<bytes>>, inserted: nat, index: nat, i: nat)
    requires Valid(t) && |names| == NHashItems(t) && inserted == CountSome(names)
    requires index <= i < |names| && names[i].None?
    requires ItemAt(t, i).parent != U32_MAX && ItemAt(t, i).parent > |names|
    requires forall j :: index <= j < i ==> GetKey(t, ItemAt(t, j)).Ok?
    requires forall j :: index <= j < i ==> ItemAt(t, j).parent == U32_MAX || ItemAt(t, j).parent <= |names|
    ensures NamesPass(t, names, inserted, index) == Err(Data(ParentInvalidOffset(ItemAt(t, i).parent)))
    decreases i - index
  {
    if index < i {
      var item := ItemAt(t, index);
      if names[index].None? {
        if item.parent == U32_MAX {
          var name := GetKey(t, item).value;
          CountSomeUpdate(names, index, name);
          PassHitsBadParent(t, names[index := Some(name)], inserted + 1, index + 1, i);
        } else if item.parent < |names| && names[item.parent].Some? {
          var name := names[item.parent].value + GetKey(t, item).value;
          CountSomeUpdate(names, index, name);
          PassHitsBadParent(t, names[index := Some(name)], inserted + 1, index + 1, i);
        } else {
          PassHitsBadParent(t, names, inserted, index + 1, i);
        }
      } else {
        PassHitsBadParent(t, names, inserted, index + 1, i);
      }
    }
  }

  /**
   * The first pass stops at the first item whose parent lies beyond the item count, with a
   * "Parent with invalid offset" error naming that parent, provided the keys before it read.
   */
  lemma NamesInvalidParentOffset(t: HashTable, i: nat)
    requires Valid(t) && i < NHashItems(t)
    requires ItemAt(t, i).parent != U32_MAX && ItemAt(t, i).parent > NHashItems(t)
    requires forall j :: 0 <= j < i ==> GetKey(t, ItemAt(t, j)).Ok?
    requires forall j :: 0 <= j < i ==> ItemAt(t, j).parent == U32_MAX || ItemAt(t, j).parent <= NHashItems(t)
    ensures Names(t) == Err(Data(ParentInvalidOffset(ItemAt(t, i).parent)))
  {
    var n := NHashItems(t);
    CountSomeNone(n);
    PassHitsBadParent(t, seq(n, _ => None), 0, 0, i);
  }

  /** `get_names`, with its passes over the items. */
  method GetNames(t: HashTable) returns (r: Result<seq<bytes>, Error>)
    requires Valid(t)
    ensures r == Names(t)
  {
    var count := NHashItems(t);
    var names: seq<Option<bytes>> := seq(count, _ => None);
    CountSomeNone(count);
    var inserted := 0;
    while inserted < count
      invariant |names| == count && inserted == CountSome(names)
      invariant NamesLoop(t, names, inserted) == Names(t)
      decreases count - inserted
    {
      var lastInserted := inserted;
      var pass := ResolvePass(t, names, inserted);
      if pass.Err? {
        return Err(pass.error);
      }
      names, inserted := pass.value.0, pass.value.1;
      if lastInserted == inserted {
        return Err(Data(ParentLoop));
      }
    }
    CountSomeFull(names);
    return Ok(Unwrap(names));
  }

  /**
   * One `for index in 0..count` pass of `get_names`: every unnamed item whose parent is the
   * root or already named gets its full name.
   */
  method ResolvePass(t: HashTable, names: seq<Option<bytes>>, inserted: nat)
    returns (r: Result<(seq<Option<bytes>>, nat), Error>)
    requires Valid(t) && |names| == NHashItems(t) && inserted == CountSome(names)
    ensures r == NamesPass(t, names, inserted, 0)
  {
    var count := |names|;
    var cur := names;
    var n := inserted;
    var index := 0;
    while index < count
      invariant index <= count && |cur| == count && n == CountSome(cur)
      invariant NamesPass(t, names, inserted, 0) == NamesPass(t, cur, n, index)
    {
      var step := ResolveAt(t, cur, n, index);
      if step.Err? {
        return Err(step.error);
      }
      cur, n := step.value.0, step.value.1;
      index := index + 1;
    }
    return Ok((cur, n));
  }

  /** The body of that pass for one index: name the item if it is unnamed and can be named. */
  method ResolveAt(t: HashTable, names: seq<Option<bytes>>, inserted: nat, index: nat)
    returns (r: Result<(seq<Option<bytes>>, nat), Error>)
    requires Valid(t) && |names| == NHashItems(t) && index < |names| && inserted == CountSome(names)
    ensures r.Ok? ==> |r.value.0| == |names| && r.value.1 == CountSome(r.value.0)
                      && NamesPass(t, names, inserted, index) == NamesPass(t, r.value.0, r.value.1, index + 1)
    ensures r.Err? ==> NamesPass(t, names, inserted, index) == Err(r.error)
  {
    var count := |names|;
    var item := GetHashItemForIndex(t, index).value;
    var parent := item.parent;
    if !Resolvable(t, names, index) {
      if names[index].None? && parent != U32_MAX && parent > count {
        r := Err(Data(ParentInvalidOffset(parent)));
      } else {
        r := Ok((names, inserted));
      }
    } else {
      var name := GetKey(t, item);
      if name.Err? {
        r := Err(name.error);
      } else {
        var fullName := if parent == U32_MAX then name.value else names[parent].value + name.value;
        CountSomeUpdate(names, index, fullName);
        var next: nat := inserted + 1;
        r := Ok((names[index := Some(fullName)], next));
      }
    }
  }
}
