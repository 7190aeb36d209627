/**
 * The 24-byte hash item record of a GVDB table and its type byte
 * (gvdb/src/read/hash_item.rs). Integer fields are stored with `to_le`, so the record's bytes
 * are the same on every host; the model keeps the values the accessors return.
 */
module ReadHashItem {
  import opened GvdbUtil
  import opened Wrappers
  import opened ReadError
  import ReadPointer

  datatype HashItemType = Value | HashTable | Container

  const BYTE_VALUE: byte := 118      // 'v'
  const BYTE_HASH_TABLE: byte := 72  // 'H'
  const BYTE_CONTAINER: byte := 76   // 'L'

  /** `impl From<HashItemType> for u8` */
  function TypeToByte(t: HashItemType): byte
  {
    match t
    case Value => BYTE_VALUE
    case HashTable => BYTE_HASH_TABLE
    case Container => BYTE_CONTAINER
  }

  /** `impl TryFrom<u8> for HashItemType`: any other byte is an error. */
  function TypeFromByte(b: byte): (r: Result<HashItemType, Error>)
    ensures r.Ok? <==> b in {BYTE_VALUE, BYTE_HASH_TABLE, BYTE_CONTAINER}
    ensures r.Ok? ==> TypeToByte(r.value) == b
  {
    if b == BYTE_VALUE then Ok(Value)
    else if b == BYTE_HASH_TABLE then Ok(HashTable)
    else if b == BYTE_CONTAINER then Ok(Container)
    else Err(InvalidData)
  }

  /** The conversion to a byte is undone by the conversion back, for all three types. */
  lemma TypeRoundTrip(t: HashItemType)
    ensures TypeFromByte(TypeToByte(t)) == Ok(t)
  {
  }

  /** The three type bytes are distinct, so the byte identifies the type. */
  lemma TypeToByteInjective(s: HashItemType, t: HashItemType)
    requires TypeToByte(s) == TypeToByte(t)
    ensures s == t
  {
  }

  datatype HashItem = HashItem(
    hashValue: u32,
    parent: u32,
    keyStart: u32,
    keySize: u16,
    typ: byte,
    unused: byte,
    value: ReadPointer.Pointer)

  const HASH_ITEM_SIZE: nat := 24

  /** `HashItem::new`: the key size is truncated to 16 bits (`as u16`). */
  function New(hashValue: u32, parent: u32, keyPtr: ReadPointer.Pointer, typ: HashItemType,
               value: ReadPointer.Pointer): (item: HashItem)
    ensures item.hashValue == hashValue && item.parent == parent && item.value == value
    ensures item.unused == 0 && TypeFromByte(item.typ) == Ok(typ)
    ensures item.keyStart == keyPtr.start
    ensures ReadPointer.Size(keyPtr) < 0x1_0000 ==> item.keySize == ReadPointer.Size(keyPtr)
  {
    HashItem(hashValue, parent, keyPtr.start, ReadPointer.Size(keyPtr) % 0x1_0000,
             TypeToByte(typ), 0, value)
  }

  /** `HashItem::key_ptr`: the key range rebuilt from its start and 16-bit size. */
  function KeyPtr(item: HashItem): ReadPointer.Pointer
  {
    ReadPointer.New(item.keyStart, item.keyStart + item.keySize)
  }

  /** `HashItem::typ` */
  function Typ(item: HashItem): Result<HashItemType, Error>
  {
    TypeFromByte(item.typ)
  }

  /** A key range survives the record when it is well ordered and shorter than 64 KiB. */
  lemma KeyPtrOfNew(hashValue: u32, parent: u32, keyPtr: ReadPointer.Pointer, typ: HashItemType,
                    value: ReadPointer.Pointer)
    requires keyPtr.start <= keyPtr.end && keyPtr.end - keyPtr.start < 0x1_0000
    ensures KeyPtr(New(hashValue, parent, keyPtr, typ, value)) == keyPtr
    ensures Typ(New(hashValue, parent, keyPtr, typ, value)) == Ok(typ)
  {
  }

  /** A key of 64 KiB or more comes back with its size cut to the low 16 bits. */
  lemma KeyPtrOfNewTruncates(keyPtr: ReadPointer.Pointer)
    requires keyPtr.start <= keyPtr.end && keyPtr.end - keyPtr.start == 0x1_0000
    ensures KeyPtr(New(0, 0, keyPtr, Value, ReadPointer.NULL)) == ReadPointer.Pointer(keyPtr.start, keyPtr.start)
  {
  }

  /** The record's bytes: hash, parent, key start, key size, type, unused, value pointer. */
  function Encode(item: HashItem): (r: bytes)
    ensures |r| == HASH_ITEM_SIZE
  {
    LeBytes32(item.hashValue) + LeBytes32(item.parent) + LeBytes32(item.keyStart)
    + LeBytes(item.keySize, 2) + [item.typ, item.unused] + ReadPointer.Encode(item.value)
  }

  /** The record read from 24 bytes (`transmute_one_pedantic`). */
  function Decode(b: bytes): HashItem
    requires |b| == HASH_ITEM_SIZE
  {
    assert FromLe(b[12..14]) < Pow256(2) == 0x1_0000;
    HashItem(FromLe32(b[0..4]), FromLe32(b[4..8]), FromLe32(b[8..12]), FromLe(b[12..14]),
             b[14], b[15], ReadPointer.Decode(b[16..24]))
  }

  lemma DecodeEncode(item: HashItem)
    ensures Decode(Encode(item)) == item
  {
    var b := Encode(item);
    assert b[0..4] == LeBytes32(item.hashValue);
    assert b[4..8] == LeBytes32(item.parent);
    assert b[8..12] == LeBytes32(item.keyStart);
    assert b[12..14] == LeBytes(item.keySize, 2);
    assert b[16..24] == ReadPointer.Encode(item.value);
    LeBytes32RoundTrip(item.hashValue);
    LeBytes32RoundTrip(item.parent);
    LeBytes32RoundTrip(item.keyStart);
    assert Pow256(2) == 0x1_0000;
    FromLeOfLeBytes(item.keySize, 2);
    ReadPointer.DecodeEncode(item.value);
  }

  lemma EncodeDecode(b: bytes)
    requires |b| == HASH_ITEM_SIZE
    ensures Encode(Decode(b)) == b
  {
    FromLe32RoundTrip(b[0..4]);
    FromLe32RoundTrip(b[4..8]);
    FromLe32RoundTrip(b[8..12]);
    LeBytesOfFromLe(b[12..14]);
    ReadPointer.EncodeDecode(b[16..24]);
    assert b == b[0..4] + b[4..8] + b[8..12] + b[12..14] + [b[14], b[15]] + b[16..24];
  }
}
