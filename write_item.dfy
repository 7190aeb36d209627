/**
 * The writer's items (gvdb/src/write/item.rs): the value stored under a key and the mutable
 * builder record a key gets once it is placed in a `SimpleHashTable`.
 *
 * A serialized value (`HashValue::Value`, or `GVariant` with the glib feature) is kept as the
 * bytes its encoder produces; the encoders themselves are not part of this model. A nested
 * `HashTableBuilder` is moved into the value in the source, so the value holds a snapshot of
 * that builder: its item map and its path separator.
 */
module WriteItem {
  import opened GvdbUtil
  import opened Wrappers
  import ReadHashItem

  type HashItemType = ReadHashItem.HashItemType

  datatype HashValue =
    | Value(data: bytes)
    | TableBuilder(items: map<bytes, HashValue>, pathSeparator: Option<byte>)
    | Container(children: seq<bytes>)

  /** `impl Default for HashValue`: an empty container. */
  function Default(): HashValue
  {
    Container([])
  }

  /** `HashValue::typ`: the item type a value is written with. */
  function Typ(v: HashValue): (r: HashItemType)
    ensures r == ReadHashItem.Value <==> v.Value?
    ensures r == ReadHashItem.HashTable <==> v.TableBuilder?
    ensures r == ReadHashItem.Container <==> v.Container?
  {
    match v
    case Value(_) => ReadHashItem.Value
    case TableBuilder(_, _) => ReadHashItem.HashTable
    case Container(_) => ReadHashItem.Container
  }

  /** The type byte the writer stores for a value is one the reader accepts, as the same type. */
  lemma TypByteIsReadable(v: HashValue)
    ensures ReadHashItem.TypeFromByte(ReadHashItem.TypeToByte(Typ(v))) == Ok(Typ(v))
  {
    ReadHashItem.TypeRoundTrip(Typ(v));
  }

  /** `HashValue::table_builder`: the nested builder, for a table value only. */
  function TableBuilderOf(v: HashValue): (r: Option<(map<bytes, HashValue>, Option<byte>)>)
    ensures r.Some? <==> Typ(v) == ReadHashItem.HashTable
    ensures r.Some? ==> r.value == (v.items, v.pathSeparator)
  {
    match v
    case TableBuilder(items, sep) => Some((items, sep))
    case _ => None
  }

  /** `HashValue::container`: the child keys, for a container only. */
  function ContainerOf(v: HashValue): (r: Option<seq<bytes>>)
    ensures r.Some? <==> Typ(v) == ReadHashItem.Container
    ensures r.Some? ==> r.value == v.children
  {
    match v
    case Container(children) => Some(children)
    case _ => None
  }

  /** The default value is a container without children. */
  lemma DefaultIsEmptyContainer()
    ensures Typ(Default()) == ReadHashItem.Container && ContainerOf(Default()) == Some([])
    ensures TableBuilderOf(Default()).None?
  {
  }

  /**
   * `HashItemBuilder`: a key placed in a hash table, with its hash, its value (taken when the
   * item is written), the index it gets in the file and its parent container. The `next`
   * link of the source's collision chains is the item's position in its bucket's sequence
   * in `SimpleHashTable`.
   */
  class HashItemBuilder {
    const key: bytes
    const hash: u32
    var value: HashValue
    var assignedIndex: u32
    var parent: Option<HashItemBuilder>

    /** `HashItemBuilder::new`: no index assigned yet (u32::MAX) and no parent. */
    constructor (key: bytes, hash: u32, value: HashValue)
      ensures this.key == key && this.hash == hash && this.value == value
      ensures assignedIndex == U32_MAX && parent == None
    {
      this.key := key;
      this.hash := hash;
      this.value := value;
      assignedIndex := U32_MAX;
      parent := None;
    }

    /** `set_assigned_index`: `assigned_index()` returns the new index; nothing else changes. */
    method SetAssignedIndex(index: u32)
      modifies this
      ensures assignedIndex == index
      ensures value == old(value) && parent == old(parent)
    {
      assignedIndex := index;
    }

    /** `parent().replace(p)` */
    method SetParent(p: Option<HashItemBuilder>)
      modifies this
      ensures parent == p
      ensures value == old(value) && assignedIndex == old(assignedIndex)
    {
      parent := p;
    }

    /** `value().take()`: the value is handed out and the default left in its place. */
    method TakeValue() returns (v: HashValue)
      modifies this
      ensures v == old(value) && value == Default()
      ensures assignedIndex == old(assignedIndex) && parent == old(parent)
    {
      v := value;
      value := Default();
    }
  }
}
