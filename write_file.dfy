/**
 * `FileWriter` (gvdb/src/write/file.rs): allocates chunks at aligned offsets, writes a hash
 * table builder into chunks (recursively for nested tables), patches the root pointer into
 * the header chunk and serializes the chunks into the file's bytes.
 *
 * The writer's output stream is the returned byte sequence; values are the bytes their
 * encoder produced (see WriteItem). The host's byte order is the parameter `host`.
 */
module WriteFile {
  import opened GvdbUtil
  import opened Wrappers
  import opened WriteError
  import opened WriteItem
  import opened WriteLayout
  import Endian
  import opened WriteHash
  import opened WriteIndexing
  import WriteBuilder
  import ReadPointer
  import ReadHeader
  import ReadHash
  import ReadHashItem
  import KeyOrder

  class FileWriter {
    var offset: nat
    var chunks: seq<Chunk>
    const byteswap: bool
    /** Where each chunk starts, before the 32-bit cut of its pointer. */
    ghost var starts: seq<nat>

    /** The chunks are laid out one after another up to `offset`. */
    ghost predicate Laidout()
      reads this
    {
      Laid(chunks, starts, offset)
    }

    /** Laid out, and chunk 0 is the 24 header bytes at the start of the file. */
    ghost predicate Valid()
      reads this
    {
      Laid(chunks, starts, offset) && |chunks| > 0 && starts[0] == 0
      && |chunks[0].data| == ReadHeader.HEADER_SIZE
    }

    /**
     * A table is being written into chunk ti: the layout holds, the chunk has the first
     * bucket words and records, and the first n items had their values taken.
     */
    ghost predicate Writing(ti: nat, m: Items, es: seq<Entry>, objs: set<HashItemBuilder>, words: seq<u32>, ws: seq<Written>, n: nat)
      requires objs == EntryItems(es)
      reads this, objs
    {
      Laidout() && Filling(chunks, ti, m, EntryKeys(es), words, ws) && Pending(es, objs, m, n)
    }

    /** `with_byteswap`: a first, zeroed chunk for the header and nothing else. */
    constructor WithByteswap(byteswap: bool)
      ensures Valid() && this.byteswap == byteswap
      ensures chunks == [Chunk(ReadPointer.Pointer(0, 24), Zeros(24))] && offset == 24
    {
      this.byteswap := byteswap;
      offset := 0;
      chunks := [];
      starts := [];
      new;
      var index := AllocateEmptyChunk(ReadHeader.HEADER_SIZE, 1);
    }

    /** `new`: a little-endian file, which needs swapping on a big-endian host. */
    constructor (host: Endian.Endian)
      ensures Valid() && byteswap == (host == Endian.Big)
      ensures chunks == [Chunk(ReadPointer.Pointer(0, 24), Zeros(24))] && offset == 24
    {
      this.byteswap := host == Endian.Big;
      offset := 0;
      chunks := [];
      starts := [];
      new;
      var index := AllocateEmptyChunk(ReadHeader.HEADER_SIZE, 1);
    }

    /** `for_big_endian`: a big-endian file, which needs swapping on a little-endian host. */
    constructor ForBigEndian(host: Endian.Endian)
      ensures Valid() && byteswap == (host == Endian.Little)
      ensures chunks == [Chunk(ReadPointer.Pointer(0, 24), Zeros(24))] && offset == 24
    {
      this.byteswap := host == Endian.Little;
      offset := 0;
      chunks := [];
      starts := [];
      new;
      var index := AllocateEmptyChunk(ReadHeader.HEADER_SIZE, 1);
    }

    /**
     * `allocate_chunk_with_data`: the chunk goes at the offset rounded up to the alignment,
     * its pointer is its range, and the offset moves to its end.
     */
    method AllocateChunkWithData(data: bytes, alignment: nat) returns (index: nat)
      requires Laidout() && IsAlignment(alignment)
      modifies this
      ensures Laidout()
      ensures index == |old(chunks)| && starts == old(starts) + [AlignOffset(old(offset), alignment)]
      ensures chunks == old(chunks) + [Chunk(ReadPointer.New(starts[index], offset), data)]
      ensures offset == starts[index] + |data|
      ensures Grows(old(chunks), old(starts), chunks, starts, |old(chunks)|)
      ensures old(Valid()) ==> Valid()
    {
      var start := AlignOffset(offset, alignment);
      var pointer := ReadPointer.New(start, start + |data|);
      offset := start + |data|;
      chunks := chunks + [Chunk(pointer, data)];
      starts := starts + [start];
      index := |chunks| - 1;
    }

    /** `allocate_empty_chunk`: a zeroed chunk of the given size. */
    method AllocateEmptyChunk(size: nat, alignment: nat) returns (index: nat)
      requires Laidout() && IsAlignment(alignment)
      modifies this
      ensures Laidout()
      ensures index == |old(chunks)| && starts == old(starts) + [AlignOffset(old(offset), alignment)]
      ensures chunks == old(chunks) + [Chunk(ReadPointer.New(starts[index], offset), Zeros(size))]
      ensures offset == starts[index] + size
      ensures Grows(old(chunks), old(starts), chunks, starts, |old(chunks)|)
      ensures old(Valid()) ==> Valid()
    {
      index := AllocateChunkWithData(Zeros(size), alignment);
    }

    /** `add_value`: a serialized value, aligned to 8. */
    method AddValue(data: bytes) returns (index: nat)
      requires Laidout()
      modifies this
      ensures Laidout()
      ensures index == |old(chunks)| && starts == old(starts) + [AlignOffset(old(offset), 8)]
      ensures chunks == old(chunks) + [Chunk(ReadPointer.New(starts[index], offset), data)]
      ensures offset == starts[index] + |data|
      ensures Grows(old(chunks), old(starts), chunks, starts, |old(chunks)|)
      ensures old(Valid()) ==> Valid()
    {
      index := AllocateChunkWithData(data, 8);
    }

    /** `add_string`: a key segment's bytes, unaligned. */
    method AddString(s: bytes) returns (index: nat)
      requires Laidout()
      modifies this
      ensures Laidout()
      ensures index == |old(chunks)| && starts == old(starts) + [old(offset)]
      ensures chunks == old(chunks) + [Chunk(ReadPointer.New(old(offset), offset), s)]
      ensures offset == old(offset) + |s|
      ensures Grows(old(chunks), old(starts), chunks, starts, |old(chunks)|)
      ensures old(Valid()) ==> Valid()
    {
      index := AllocateChunkWithData(s, 1);
    }

    /** Copies `b` into chunk `index` at `at`; the chunk keeps its size and pointer. */
    method Patch(index: nat, at: nat, b: bytes)
      requires Laidout() && index < |chunks| && at + |b| <= |chunks[index].data|
      modifies this
      ensures Laidout() && offset == old(offset) && starts == old(starts)
      ensures chunks == old(chunks)[index := Chunk(old(chunks)[index].pointer, Splice(old(chunks)[index].data, at, b))]
      ensures Grows(old(chunks), old(starts), chunks, starts, index)
      ensures old(Valid()) ==> Valid()
    {
      LaidPatch(chunks, starts, offset, index, Splice(chunks[index].data, at, b));
      chunks := chunks[index := Chunk(chunks[index].pointer, Splice(chunks[index].data, at, b))];
    }

    /** `file_size`: where the last chunk ends. */
    function FileSize(): (r: nat)
      reads this
      requires Valid()
      ensures offset < U32_LIMIT ==> r == offset
    {
      chunks[|chunks| - 1].pointer.end
    }

    /**
     * `serialize`: the header chunk gets the header pointing at the root chunk, then every
     * chunk is written after zeros up to its start. An unknown root chunk is a consistency
     * error before anything is written.
     */
    method Serialize(rootIndex: nat, host: Endian.Endian) returns (r: Result<nat, Error>, out: bytes)
      requires Valid()
      modifies this
      ensures Valid() && offset == old(offset) && starts == old(starts)
      ensures rootIndex >= |old(chunks)| ==> r == Err(Consistency) && out == [] && chunks == old(chunks)
      ensures rootIndex < |old(chunks)| ==>
        chunks == old(chunks)[0 := Chunk(old(chunks)[0].pointer, HeaderBytes(byteswap, old(chunks)[rootIndex].pointer, host))]
        && r.Ok? && (out, r.value) == Emit(chunks)
    {
      if rootIndex >= |chunks| {
        return Err(Consistency), [];
      }
      var rootPtr := chunks[rootIndex].pointer;
      ghost var header := chunks[0];
      Patch(0, 0, HeaderBytes(byteswap, rootPtr, host));
      assert Splice(header.data, 0, HeaderBytes(byteswap, rootPtr, host)) == HeaderBytes(byteswap, rootPtr, host);
      var size;
      size, out := WriteChunks(chunks);
      r := Ok(size);
    }

    /**
     * `add_simple_hash_table`: the items get their positions in `iter` order as indices;
     * then a chunk aligned to 4 gets the header, and bucket by bucket each bucket word (the
     * number of items before the bucket) and each item's record, after the item's key and
     * value chunks. An empty key segment or a missing child is a consistency error.
     */
    method AddSimpleHashTable(t: SimpleHashTable, ghost v: HashValue) returns (r: Result<nat, Error>, ghost info: TableInfo)
      requires Laidout() && v.TableBuilder? && Fits(v)
      requires WriteBuilder.Filled(t, v.items) && WriteBuilder.ParentsLinked(t)
      modifies this, t.ItemSet()
      ensures Laidout() && Grows(old(chunks), old(starts), chunks, starts, |old(chunks)|)
      ensures old(Valid()) ==> Valid()
      ensures r.Ok? ==> r.value == |old(chunks)| && TableWritten(chunks, r.value, v.items, info)
      ensures r.Err? ==> r.error == Consistency
      ensures Writable(v) ==> r.Ok?
      decreases v, 7
    {
      ghost var m := v.items;
      var es;
      ghost var objs;
      es, objs := IndexItems(t, m);
      NotAnItem(this, objs);
      r, info := WriteTable(t, v, es, objs);
    }

    /** `add_simple_hash_table` once the items have their indices. */
    method WriteTable(t: SimpleHashTable, ghost v: HashValue, ghost es: seq<Entry>, ghost objs: set<HashItemBuilder>)
      returns (r: Result<nat, Error>, ghost info: TableInfo)
      requires objs == EntryItems(es)
      requires Laidout() && v.TableBuilder? && Fits(v) && |t.buckets| == t.nItems == |v.items|
      requires Indexed(es, t.buckets, v.items) && Listed(es, v.items) && Finds(es, t.buckets, v.items)
      requires Pending(es, objs, v.items, 0)
      modifies this, objs
      ensures Laidout() && Grows(old(chunks), old(starts), chunks, starts, |old(chunks)|)
      ensures old(Valid()) ==> Valid()
      ensures r.Ok? ==> r.value == |old(chunks)| && TableWritten(chunks, r.value, v.items, info)
      ensures r.Err? ==> r.error == Consistency
      ensures Writable(v) ==> r.Ok?
      decreases v, 6
    {
      ghost var m := v.items;
      var nb := t.NBuckets();
      var ni := t.NItems();
      NotAnItem(this, objs);
      var ti := AllocateTable(nb, ni);
      FillingStart(chunks, ti, m, EntryKeys(es));
      ghost var words, ws;
      var rf;
      ghost var cs2, st2 := chunks, starts;
      rf, words, ws := WriteBuckets(t, ti, v, es, objs);
      GrowsTrans(old(chunks), old(starts), cs2, st2, chunks, starts, ti, ti);
      info := TableInfo(words, ws);
      if rf.Err? {
        return Err(rf.error), info;
      }
      TableDone(chunks, ti, m, es, t.buckets, words, ws);
      r := Ok(ti);
    }

    /** The table chunk of `add_simple_hash_table`, aligned to 4: the header, then zeros. */
    method AllocateTable(nb: nat, ni: nat) returns (ti: nat)
      requires Laidout() && nb < U32_LIMIT
      modifies this
      ensures Laidout() && ti == |old(chunks)| < |chunks|
      ensures chunks[ti].data == TableLayout(nb as u32, [], [], ni) && chunks[ti].pointer.start % 4 == 0
      ensures Grows(old(chunks), old(starts), chunks, starts, |old(chunks)|)
      ensures old(Valid()) ==> Valid()
    {
      ti := AllocateEmptyChunk(ReadHash.HASH_HEADER_SIZE + 4 * nb + ReadHashItem.HASH_ITEM_SIZE * ni, 4);
      AlignedStart(starts[ti], offset, 4);
      ghost var cs1, st1 := chunks, starts;
      Patch(ti, 0, ReadHash.EncodeHashHeader(TableHeader(nb as u32)));
      GrowsTrans(old(chunks), old(starts), cs1, st1, chunks, starts, ti, ti);
      TableLayoutStart(nb as u32, ni);
    }

    /**
     * The bucket loop of `add_simple_hash_table`: bucket by bucket, the bucket word and then
     * the bucket's items.
     */
    method WriteBuckets(t: SimpleHashTable, ti: nat, ghost v: HashValue, ghost es: seq<Entry>,
                        ghost objs: set<HashItemBuilder>)
      returns (r: Result<nat, Error>, ghost words: seq<u32>, ghost ws: seq<Written>)
      requires objs == EntryItems(es)
      requires v.TableBuilder? && Fits(v) && |t.buckets| == |v.items|
      requires es == Flatten(t.buckets) && Listed(es, v.items) && Finds(es, t.buckets, v.items)
      requires Writing(ti, v.items, es, objs, [], [], 0)
      modifies this, objs
      ensures Laidout() && Grows(old(chunks), old(starts), chunks, starts, ti)
      ensures r.Ok? ==> Counted(t.buckets, |t.buckets|, words, r.value) && r.value == |ws|
                        && Writing(ti, v.items, es, objs, words, ws, r.value)
      ensures r.Err? ==> r.error == Consistency
      ensures Writable(v) ==> r.Ok?
      decreases v, 5
    {
      words, ws := [], [];
      var nb := t.NBuckets();
      var nItem := 0;
      var b := 0;
      while b < nb
        invariant b <= nb && Counted(t.buckets, b, words, nItem) && nItem == |ws|
        invariant Grows(old(chunks), old(starts), chunks, starts, ti)
        invariant Writing(ti, v.items, es, objs, words, ws, nItem)
      {
        ghost var cs1, st1 := chunks, starts;
        var rb;
        rb, words, ws := WriteBucket(t, b, ti, nItem, v, es, objs, words, ws);
        GrowsTrans(old(chunks), old(starts), cs1, st1, chunks, starts, ti, ti);
        if rb.Err? {
          return Err(rb.error), words, ws;
        }
        nItem := rb.value;
        b := b + 1;
      }
      r := Ok(nItem);
    }

    /** One bucket of `add_simple_hash_table`: its word (the items before it), then its items. */
    method WriteBucket(t: SimpleHashTable, b: nat, ti: nat, nItem: nat, ghost v: HashValue,
                       ghost es: seq<Entry>, ghost objs: set<HashItemBuilder>, ghost words: seq<u32>,
                       ghost ws: seq<Written>)
      returns (r: Result<nat, Error>, ghost words': seq<u32>, ghost ws': seq<Written>)
      requires objs == EntryItems(es)
      requires v.TableBuilder? && Fits(v) && b < |t.buckets| == |v.items|
      requires es == Flatten(t.buckets) && Listed(es, v.items) && Finds(es, t.buckets, v.items)
      requires Counted(t.buckets, b, words, nItem) && nItem == |ws|
      requires Writing(ti, v.items, es, objs, words, ws, nItem)
      modifies this, objs
      ensures Laidout() && Grows(old(chunks), old(starts), chunks, starts, ti)
      ensures r.Ok? ==> Counted(t.buckets, b + 1, words', r.value) && r.value == |ws'|
                        && Writing(ti, v.items, es, objs, words', ws', r.value)
      ensures r.Err? ==> r.error == Consistency
      ensures Writable(v) ==> r.Ok?
      decreases v, 4
    {
      var chain := t.BucketItems(b);
      BucketFacts(es, t.buckets, b, words, nItem);
      ghost var cs1, st1 := chunks, starts;
      PutWord(ti, b, nItem as u32, v.items, es, objs, words, ws);
      GrowsTrans(old(chunks), old(starts), cs1, st1, chunks, starts, ti, ti);
      words' := words + [nItem as u32];
      ghost var cs2, st2 := chunks, starts;
      r, ws' := WriteChain(t, chain, ti, nItem, 0, v, es, objs, words', ws);
      GrowsTrans(old(chunks), old(starts), cs2, st2, chunks, starts, ti, ti);
    }

    /**
     * The walk along a bucket's chain in `add_simple_hash_table`, from its j-th item on:
     * item by item, in chain order, the key and value chunks and the record.
     */
    method WriteChain(t: SimpleHashTable, chain: Chain, ti: nat, start: nat, j: nat, ghost v: HashValue,
                      ghost es: seq<Entry>, ghost objs: set<HashItemBuilder>, ghost words: seq<u32>,
                      ghost ws: seq<Written>)
      returns (r: Result<nat, Error>, ghost ws': seq<Written>)
      requires objs == EntryItems(es)
      requires v.TableBuilder? && Fits(v)
      requires Listed(es, v.items) && Finds(es, t.buckets, v.items)
      requires InChain(es, chain, start) && j <= |chain| && |ws| == start + j
      requires Writing(ti, v.items, es, objs, words, ws, start + j)
      modifies this, objs
      ensures Laidout() && Grows(old(chunks), old(starts), chunks, starts, ti)
      ensures r.Ok? ==> r.value == start + |chain| == |ws'|
      ensures r.Ok? ==> Writing(ti, v.items, es, objs, words, ws', r.value)
      ensures r.Err? ==> r.error == Consistency
      ensures Writable(v) ==> r.Ok?
      decreases v, 3, |chain| - j
    {
      if j == |chain| {
        return Ok(start + j), ws;
      }
      var n := start + j;
      assert ItemOf(es, n) == chain[j];
      var ri;
      ghost var w;
      ri, w := WriteItemRecord(t, chain[j], ti, n, v, es, objs, words, ws);
      if ri.Err? {
        return Err(ri.error), ws;
      }
      ghost var cs1, st1 := chunks, starts;
      r, ws' := WriteChain(t, chain, ti, start, j + 1, v, es, objs, words, ws + [w]);
      GrowsTrans(old(chunks), old(starts), cs1, st1, chunks, starts, ti, ti);
    }

    /** One item of a bucket: its key and value chunks, then its record in the table chunk. */
    method WriteItemRecord(t: SimpleHashTable, x: HashItemBuilder, ti: nat, n: nat, ghost v: HashValue,
                           ghost es: seq<Entry>, ghost objs: set<HashItemBuilder>, ghost words: seq<u32>,
                           ghost ws: seq<Written>)
      returns (r: Result<nat, Error>, ghost w: Written)
      requires objs == EntryItems(es)
      requires Laidout() && v.TableBuilder? && Fits(v)
      requires Listed(es, v.items) && Finds(es, t.buckets, v.items)
      requires n < |es| && es[n].1 == x && |ws| == n
      requires Writing(ti, v.items, es, objs, words, ws, n)
      modifies this, objs
      ensures Laidout() && Grows(old(chunks), old(starts), chunks, starts, ti)
      ensures r.Ok? ==> r.value == n + 1 && Writing(ti, v.items, es, objs, words, ws + [w], n + 1)
      ensures r.Err? ==> r.error == Consistency
      ensures Writable(v) ==> r.Ok?
      decreases v, 2
    {
      ghost var cs1, st1 := chunks, starts;
      var ri;
      ri, w := WriteItem(t, x, ti, n, v, es, objs);
      GrowsTrans(old(chunks), old(starts), cs1, st1, chunks, starts, ti, |cs1|);
      if ri.Err? {
        return Err(ri.error), w;
      }
      FillingKept(cs1, chunks, ti, v.items, EntryKeys(es), words, ws);
      ghost var cs2, st2 := chunks, starts;
      PutRecord(t.NBuckets(), ti, n, ri.value, v.items, es, objs, words, ws, w);
      GrowsTrans(old(chunks), old(starts), cs2, st2, chunks, starts, ti, ti);
      r := Ok(n + 1);
    }

    /** Bucket word b of the table goes into its place in the table chunk. */
    method PutWord(ti: nat, b: nat, wd: u32, ghost m: Items, ghost es: seq<Entry>, ghost objs: set<HashItemBuilder>,
                   ghost words: seq<u32>, ghost ws: seq<Written>)
      requires objs == EntryItems(es) && Writing(ti, m, es, objs, words, ws, wd as nat) && |words| == b < |m|
      modifies this
      ensures Grows(old(chunks), old(starts), chunks, starts, ti)
      ensures Writing(ti, m, es, objs, words + [wd], ws, wd as nat)
    {
      FillingWord(chunks, ti, m, EntryKeys(es), words, ws, b, wd);
      NotAnItem(this, objs);
      Patch(ti, ReadHash.HASH_HEADER_SIZE + 4 * b, LeBytes32(wd));
    }

    /** Record n of the table goes into its place in the table chunk. */
    method PutRecord(nb: nat, ti: nat, n: nat, item: ReadHashItem.HashItem, ghost m: Items, ghost es: seq<Entry>,
                     ghost objs: set<HashItemBuilder>, ghost words: seq<u32>, ghost ws: seq<Written>, ghost w: Written)
      requires objs == EntryItems(es) && Pending(es, objs, m, n + 1)
      requires Laidout() && Filling(chunks, ti, m, EntryKeys(es), words, ws) && |ws| == n < |m| == nb
      requires w.key == EntryKeys(es)[n] && ItemWritten(chunks, ti, m, EntryKeys(es), w) && item == RecordOf(m, w)
      modifies this
      ensures Grows(old(chunks), old(starts), chunks, starts, ti)
      ensures Writing(ti, m, es, objs, words, ws + [w], n + 1)
    {
      FillingRecord(chunks, ti, m, EntryKeys(es), words, ws, nb, n, w);
      NotAnItem(this, objs);
      Patch(ti, RecordAt(nb, n), ReadHashItem.Encode(item));
    }

    /**
     * One item of `add_simple_hash_table`: its parent's index, its key after its parent's
     * (an empty segment is an error), the key chunk, the value chunk by the value's kind
     * (taking the value out of the item), and the record that goes into the table chunk.
     */
    method WriteItem(t: SimpleHashTable, x: HashItemBuilder, ghost ti: nat, n: nat, ghost v: HashValue,
                     ghost es: seq<Entry>, ghost objs: set<HashItemBuilder>)
      returns (r: Result<ReadHashItem.HashItem, Error>, ghost w: Written)
      requires objs == EntryItems(es)
      requires Laidout() && v.TableBuilder? && Fits(v) && ti < |chunks|
      requires Listed(es, v.items) && Finds(es, t.buckets, v.items)
      requires n < |es| && es[n].1 == x && Pending(es, objs, v.items, n)
      modifies this, objs
      ensures Laidout() && Grows(old(chunks), old(starts), chunks, starts, |old(chunks)|)
      ensures r.Ok? ==> w.key == x.key && ItemWritten(chunks, ti, v.items, EntryKeys(es), w)
                        && r.value == RecordOf(v.items, w) && Pending(es, objs, v.items, n + 1)
      ensures r.Err? ==> r.error == Consistency
      ensures Writable(v) ==> r.Ok?
      decreases v, 1
    {
      ghost var m := v.items;
      var kc, parent, wp := AddKey(x, n, m, es, objs);
      w := Written(x.key, wp, 0, 0, ReadPointer.Pointer(0, 0), ReadPointer.Pointer(0, 0), TableInfo([], []));
      if kc.Err? {
        return Err(kc.error), w;
      }
      var keyChunk := kc.value;
      var keyPtr := chunks[keyChunk].pointer;
      ghost var cs1, st1 := chunks, starts;
      var rv, typ;
      ghost var sub;
      rv, typ, sub := WriteItemValue(t, x, n, v, es, objs);
      GrowsTrans(old(chunks), old(starts), cs1, st1, chunks, starts, |old(chunks)|, |cs1|);
      if rv.Err? {
        return Err(rv.error), w;
      }
      assert x.hash == DjbHash(x.key);
      var valuePtr := chunks[rv.value].pointer;
      var item := ReadHashItem.New(x.hash, parent, keyPtr, typ, valuePtr);
      w := Written(x.key, wp, keyChunk, rv.value, keyPtr, valuePtr, sub);
      ItemWrittenIntro(chunks, ti, m, EntryKeys(es), w);
      r := Ok(item);
    }

    /**
     * The value part of an item: the kind of its value, then the value taken out of the item
     * and written by its kind.
     */
    method WriteItemValue(t: SimpleHashTable, x: HashItemBuilder, n: nat, ghost v: HashValue,
                          ghost es: seq<Entry>, ghost objs: set<HashItemBuilder>)
      returns (r: Result<nat, Error>, typ: ReadHashItem.HashItemType, ghost sub: TableInfo)
      requires objs == EntryItems(es)
      requires Laidout() && v.TableBuilder? && Fits(v)
      requires Listed(es, v.items) && Finds(es, t.buckets, v.items)
      requires n < |es| && es[n].1 == x && Pending(es, objs, v.items, n)
      modifies this, objs
      ensures Laidout() && Grows(old(chunks), old(starts), chunks, starts, |old(chunks)|)
      ensures Pending(es, objs, v.items, n + 1) && x.key in v.items && typ == Typ(v.items[x.key])
      ensures r.Ok? ==> |old(chunks)| <= r.value && ValueWritten(chunks, r.value, v.items[x.key], EntryKeys(es), sub)
      ensures r.Err? ==> r.error == Consistency
      ensures Writable(v) ==> r.Ok?
      decreases v, 0
    {
      ghost var m := v.items;
      assert Pends(es, objs, m, n, n);
      typ := Typ(x.value);
      var value := TakeItemValue(x, n, m, es, objs);
      FitsItem(v, x.key);
      if Writable(v) {
        WritableItem(v, x.key);
      }
      r, sub := WriteValue(t, x, value, n, m, es, objs);
    }

    /**
     * The key part of an item: its parent's index (`u32::MAX` for a root) and its key after
     * its parent's, which goes into a chunk of its own; an empty segment, or a parent whose
     * key is not a prefix, is a consistency error.
     */
    method AddKey(x: HashItemBuilder, n: nat, ghost m: Items, ghost es: seq<Entry>, ghost objs: set<HashItemBuilder>)
      returns (r: Result<nat, Error>, parent: u32, ghost wp: Option<u32>)
      requires objs == EntryItems(es) && n < |es| && es[n].1 == x && Pending(es, objs, m, n)
      requires Laidout()
      modifies this
      ensures Laidout() && Grows(old(chunks), old(starts), chunks, starts, |old(chunks)|) && unchanged(objs)
      ensures wp == (if x.parent.Some? then Some(x.parent.value.assignedIndex) else None)
      ensures parent == ParentWord(wp)
      ensures r.Ok? ==> r.value == |old(chunks)| < |chunks| && ParentOk(m, EntryKeys(es), x.key, wp)
                        && chunks[r.value].data == StoredKey(EntryKeys(es), x.key, wp) != []
      ensures r.Err? ==> r.error == Consistency && chunks == old(chunks)
      ensures KeysWritable(m) ==> r.Ok?
    {
      assert Pends(es, objs, m, n, n);
      parent := if x.parent.Some? then x.parent.value.assignedIndex else U32_MAX;
      wp := if x.parent.Some? then Some(parent) else None;
      var key: bytes;
      if x.parent.Some? {
        var stripped := StripPrefix(x.key, x.parent.value.key);
        key := if stripped.Some? then stripped.value else [];
      } else {
        key := x.key;
      }
      if key == [] {
        return Err(Consistency), parent, wp;
      }
      NotAnItem(this, objs);
      var index := AddString(key);
      r := Ok(index);
    }

    /**
     * The value chunk of an item, by the value's kind: the value's bytes aligned to 8, the
     * nested table, or the container's child indices.
     */
    method WriteValue(t: SimpleHashTable, x: HashItemBuilder, value: HashValue, n: nat, ghost m: Items,
                      ghost es: seq<Entry>, ghost objs: set<HashItemBuilder>)
      returns (r: Result<nat, Error>, ghost sub: TableInfo)
      requires objs == EntryItems(es)
      requires Laidout() && Fits(value) && |m| < U32_LIMIT
      requires Listed(es, m) && Finds(es, t.buckets, m)
      requires n < |es| && es[n].1 == x && x.key in m && value == m[x.key]
      requires Pending(es, objs, m, n + 1)
      modifies this, objs
      ensures Laidout() && Grows(old(chunks), old(starts), chunks, starts, |old(chunks)|)
      ensures Pending(es, objs, m, n + 1)
      ensures r.Ok? ==> |old(chunks)| <= r.value && ValueWritten(chunks, r.value, value, EntryKeys(es), sub)
      ensures r.Err? ==> r.error == Consistency
      ensures Writable(value) && (value.Container? ==> forall c :: c in value.children ==> c in m) ==> r.Ok?
      decreases value, 9
    {
      sub := TableInfo([], []);
      match value {
        case Value(d) =>
          var vc := AddValue(d);
          AlignedStart(starts[vc], offset, 8);
          assert unchanged(objs);
          r := Ok(vc);
        case TableBuilder(_, _) =>
          r, sub := AddTableBuilder(value);
          assert unchanged(objs);
        case Container(children) =>
          r := AddContainer(t, x, children, n, m, es, objs);
      }
    }

    /**
     * The container case of `add_simple_hash_table`: a chunk aligned to 4 with the index of
     * each child's item, which gets the container's item as its parent. A child without an
     * item is a consistency error.
     */
    method AddContainer(t: SimpleHashTable, x: HashItemBuilder, children: seq<bytes>, n: nat,
                        ghost m: Items, ghost es: seq<Entry>, ghost objs: set<HashItemBuilder>)
      returns (r: Result<nat, Error>)
      requires objs == EntryItems(es)
      requires Laidout() && Listed(es, m) && Finds(es, t.buckets, m) && |m| < U32_LIMIT
      requires n < |es| && es[n].1 == x && x.key in m && m[x.key] == Container(children)
      requires Pending(es, objs, m, n + 1)
      modifies this, objs
      ensures Laidout() && |chunks| == |old(chunks)| + 1 && Grows(old(chunks), old(starts), chunks, starts, |old(chunks)|)
      ensures Pending(es, objs, m, n + 1)
      ensures r.Ok? <==> forall c :: c in children ==> c in m
      ensures r.Ok? ==> r.value == |old(chunks)| && (forall c :: c in children ==> c in EntryKeys(es))
                        && chunks[r.value].data == Words(ChildIndices(EntryKeys(es), children))
      ensures r.Err? ==> r.error == Consistency
    {
      ghost var keys := EntryKeys(es);
      var vc := AllocateEmptyChunk(4 * |children|, 4);
      SlotsStart(chunks, vc, keys, children);
      var i := 0;
      while i < |children|
        invariant i <= |children|
        invariant Laidout() && vc == |old(chunks)| && |chunks| == vc + 1
        invariant Grows(old(chunks), old(starts), chunks, starts, vc)
        invariant SlotsFilled(chunks, vc, keys, children, i)
        invariant Pending(es, objs, m, n + 1)
      {
        ghost var cs1, st1 := chunks, starts;
        var found := AddChild(t, x, children, i, vc, n, m, es, objs);
        if !found {
          return Err(Consistency);
        }
        GrowsTrans(old(chunks), old(starts), cs1, st1, chunks, starts, vc, vc);
        i := i + 1;
      }
      SlotsDone(chunks, vc, keys, children);
      r := Ok(vc);
    }

    /**
     * One child of the container case: the item `get` finds for it gets the container's
     * item as its parent and its index goes into the child's slot; no item is an error.
     */
    method AddChild(t: SimpleHashTable, x: HashItemBuilder, children: seq<bytes>, i: nat, vc: nat, n: nat,
                    ghost m: Items, ghost es: seq<Entry>, ghost objs: set<HashItemBuilder>)
      returns (found: bool)
      requires objs == EntryItems(es)
      requires Laidout() && Listed(es, m) && Finds(es, t.buckets, m) && |m| < U32_LIMIT
      requires n < |es| && es[n].1 == x && x.key in m && m[x.key] == Container(children)
      requires Pending(es, objs, m, n + 1)
      requires i < |children| && SlotsFilled(chunks, vc, EntryKeys(es), children, i)
      modifies this, objs
      ensures Laidout() && |chunks| == |old(chunks)| && Grows(old(chunks), old(starts), chunks, starts, vc)
      ensures Pending(es, objs, m, n + 1)
      ensures found <==> children[i] in m
      ensures found ==> SlotsFilled(chunks, vc, EntryKeys(es), children, i + 1)
    {
      var child := t.Get(children[i]);
      if child.None? {
        return false;
      }
      LinkChild(t, child.value, x, children[i], n, m, es, objs);
      PutChildIndex(vc, children, i, EntryKeys(es), child.value.assignedIndex, objs);
      found := true;
    }

    /**
     * The child `get` found for key c of the container item x (item n) gets x as its parent;
     * its index is the position of c in `iter` order.
     */
    method LinkChild(t: SimpleHashTable, ci: HashItemBuilder, x: HashItemBuilder, c: bytes, n: nat,
                     ghost m: Items, ghost es: seq<Entry>, ghost objs: set<HashItemBuilder>)
      requires objs == EntryItems(es) && Listed(es, m) && Finds(es, t.buckets, m) && |t.buckets| > 0
      requires n < |es| && es[n].1 == x && x.key in m && m[x.key].Container? && c in m[x.key].children
      requires Pending(es, objs, m, n + 1) && LookupIn(t.buckets, c) == Some(ci)
      modifies objs
      ensures unchanged(this)
      ensures Pending(es, objs, m, n + 1) && c in EntryKeys(es)
      ensures ci.assignedIndex as int == IndexIn(EntryKeys(es), c)
    {
      FoundItem(es, objs, t.buckets, m, n + 1, c, ci);
      SetChildParent(ci, x, n, m, es, objs);
    }

    /**
     * One child of the container case: the child's index, the position of its key in
     * `iter` order, goes into the child's slot of the container chunk.
     */
    method PutChildIndex(vc: nat, children: seq<bytes>, i: nat, ghost keys: seq<bytes>, w: u32,
                         ghost objs: set<HashItemBuilder>)
      requires Laidout() && SlotsFilled(chunks, vc, keys, children, i)
      requires i < |children| && children[i] in keys && w as int == IndexIn(keys, children[i])
      modifies this
      ensures Laidout() && |chunks| == |old(chunks)| && Grows(old(chunks), old(starts), chunks, starts, vc)
      ensures unchanged(objs)
      ensures SlotsFilled(chunks, vc, keys, children, i + 1)
    {
      ChildSlot(keys, children, i, w);
      Patch(vc, 4 * i, LeBytes32(w));
    }

    /** `add_table_builder`: the nested builder is built, then added as a table. */
    method AddTableBuilder(tb: HashValue) returns (r: Result<nat, Error>, ghost info: TableInfo)
      requires Laidout() && tb.TableBuilder? && Fits(tb)
      modifies this
      ensures Laidout() && Grows(old(chunks), old(starts), chunks, starts, |old(chunks)|)
      ensures old(Valid()) ==> Valid()
      ensures r.Ok? ==> r.value == |old(chunks)| && TableWritten(chunks, r.value, tb.items, info)
      ensures r.Err? ==> r.error == Consistency
      ensures Writable(tb) ==> r.Ok?
      decreases tb, 8
    {
      var built := WriteBuilder.BuildTable(tb.items);
      if built.Err? {
        return Err(built.error), TableInfo([], []);
      }
      r, info := AddSimpleHashTable(built.value, tb);
    }
  }

  /**
   * `write_with_table`: the builder is built and added as a table, which becomes the root
   * the header points at, and the file is serialized. A builder the writer accepts is
   * written; a failure is a consistency error and writes nothing.
   */
  method WriteWithTable(w: FileWriter, builder: WriteBuilder.HashTableBuilder, host: Endian.Endian)
    returns (r: Result<nat, Error>, out: bytes, ghost info: TableInfo)
    requires w.Valid() && Fits(builder.Snapshot())
    modifies w
    ensures w.Valid()
    ensures r.Ok? ==>
      var ti := |old(w.chunks)|;
      ti < |w.chunks| && TableWritten(w.chunks, ti, builder.items, info)
      && w.chunks[0].data == HeaderBytes(w.byteswap, w.chunks[ti].pointer, host)
      && (out, r.value) == Emit(w.chunks)
    ensures r.Err? ==> r.error == Consistency && out == []
    ensures Writable(builder.Snapshot()) ==> r.Ok?
  {
    var ti;
    ti, info := w.AddTableBuilder(builder.Snapshot());
    if ti.Err? {
      return Err(ti.error), [], info;
    }
    ghost var cs := w.chunks;
    r, out := w.Serialize(ti.value, host);
    HeaderPatchKeeps(cs, HeaderBytes(w.byteswap, cs[ti.value].pointer, host), ti.value, builder.items, info);
  }

  /** Writing the header into chunk 0 keeps every table written after it. */
  lemma HeaderPatchKeeps(cs: seq<Chunk>, h: bytes, ti: nat, m: Items, info: TableInfo)
    requires 0 < ti && TableWritten(cs, ti, m, info)
    ensures TableWritten(cs[0 := Chunk(cs[0].pointer, h)], ti, m, info)
  {
    TableWrittenFrame(cs, cs[0 := Chunk(cs[0].pointer, h)], ti, m, info);
  }

  /** `write_to_vec_with_table`: the same file as `write_with_table`, as a byte vector. */
  method WriteToVecWithTable(w: FileWriter, builder: WriteBuilder.HashTableBuilder, host: Endian.Endian)
    returns (r: Result<bytes, Error>, ghost info: TableInfo)
    requires w.Valid() && Fits(builder.Snapshot())
    modifies w
    ensures w.Valid()
    ensures r.Ok? ==>
      var ti := |old(w.chunks)|;
      ti < |w.chunks| && TableWritten(w.chunks, ti, builder.items, info)
      && w.chunks[0].data == HeaderBytes(w.byteswap, w.chunks[ti].pointer, host)
      && r.value == Emit(w.chunks).0
    ensures r.Err? ==> r.error == Consistency
    ensures Writable(builder.Snapshot()) ==> r.Ok?
  {
    var size, out;
    size, out, info := WriteWithTable(w, builder, host);
    if size.Err? {
      return Err(size.error), info;
    }
    r := Ok(out);
  }

  /** `serialize`'s loop: each chunk after zeros up to its start, counting the bytes. */
  method WriteChunks(cs: seq<Chunk>) returns (size: nat, out: bytes)
    ensures (out, size) == Emit(cs)
  {
    size := 0;
    out := [];
    var i := 0;
    while i < |cs|
      invariant i <= |cs|
      invariant (out, size) == Emit(cs[..i])
    {
      var c := cs[i];
      ghost var prev := (out, size);
      if size < c.pointer.start {
        var padding := c.pointer.start - size;
        size := size + padding;
        out := out + Zeros(padding);
      }
      size := size + ReadPointer.Size(c.pointer);
      out := out + c.data;
      assert (out, size) == EmitChunk(prev, c);
      EmitTakeOneMore(cs, i);
      i := i + 1;
    }
    assert cs[..i] == cs;
  }

  /**
   * From (cs0, st0) to (cs, st) chunks were only added, and of the chunks before only chunk
   * ti changed, in its bytes but not their number.
   */
  predicate Grows(cs0: seq<Chunk>, st0: seq<nat>, cs: seq<Chunk>, st: seq<nat>, ti: nat)
  {
    |cs0| <= |cs| && |st0| <= |st|
    && (forall i :: 0 <= i < |st0| ==> st[i] == st0[i])
    && (forall i :: 0 <= i < |cs0| && i != ti ==> cs[i] == cs0[i])
    && (ti < |cs0| ==> cs[ti].pointer == cs0[ti].pointer && |cs[ti].data| == |cs0[ti].data|)
  }

  /** Growing twice, the second time changing the same chunk or none of the earlier ones. */
  lemma GrowsTrans(cs0: seq<Chunk>, st0: seq<nat>, cs1: seq<Chunk>, st1: seq<nat>, cs2: seq<Chunk>, st2: seq<nat>,
                   ti: nat, tj: nat)
    requires Grows(cs0, st0, cs1, st1, ti) && Grows(cs1, st1, cs2, st2, tj) && (tj == ti || |cs1| <= tj)
    ensures Grows(cs0, st0, cs2, st2, ti)
  {
  }

  /** Replacing a chunk's bytes by as many others keeps the layout. */
  lemma LaidPatch(cs: seq<Chunk>, starts: seq<nat>, offset: nat, index: nat, d: bytes)
    requires Laid(cs, starts, offset) && index < |cs| && |d| == |cs[index].data|
    ensures Laid(cs[index := Chunk(cs[index].pointer, d)], starts, offset)
  {
    var cs' := cs[index := Chunk(cs[index].pointer, d)];
    assert forall i :: 0 <= i < |cs| ==> |cs'[i].data| == |cs[i].data| && cs'[i].pointer == cs[i].pointer;
  }

  /** The 24 bytes of `Header::new(byteswap, 0, root)` as this host lays them out. */
  function HeaderBytes(byteswap: bool, root: ReadPointer.Pointer, host: Endian.Endian): (r: bytes)
    ensures |r| == ReadHeader.HEADER_SIZE
  {
    ReadHeader.Encode(ReadHeader.New(byteswap, 0, root, host), host)
  }

  /**
   * A serialized file below 4 GiB is `offset` bytes long: the header pointing at the root
   * chunk first, every other chunk's bytes at its start, zeros between chunks.
   */
  lemma SerializedLayout(cs: seq<Chunk>, starts: seq<nat>, offset: nat, byteswap: bool,
                         root: nat, host: Endian.Endian)
    requires Laid(cs, starts, offset) && |cs| > 0 && starts[0] == 0
    requires |cs[0].data| == ReadHeader.HEADER_SIZE && root < |cs| && offset < U32_LIMIT
    ensures var cs' := cs[0 := Chunk(cs[0].pointer, HeaderBytes(byteswap, cs[root].pointer, host))];
      var out := Emit(cs').0;
      Emit(cs').1 == offset && |out| == offset
      && out[..ReadHeader.HEADER_SIZE] == HeaderBytes(byteswap, cs[root].pointer, host)
      && Holds(out, cs', starts) && ZeroGaps(out, cs', starts)
  {
    var cs' := cs[0 := Chunk(cs[0].pointer, HeaderBytes(byteswap, cs[root].pointer, host))];
    LaidPatch(cs, starts, offset, 0, HeaderBytes(byteswap, cs[root].pointer, host));
    EmitLaid(cs', starts, offset);
    assert cs'[0].data == HeaderBytes(byteswap, cs[root].pointer, host);
  }

  /**
   * The items while `add_simple_hash_table` writes a table: item k has index k and a key of
   * the map; the first n had their values taken, the others hold their key's value; a parent
   * is an item of the table whose key holds a container listing the child.
   */
  ghost predicate Pending(es: seq<Entry>, objs: set<HashItemBuilder>, m: Items, n: nat)
    requires objs == EntryItems(es)
    reads objs
  {
    forall k :: 0 <= k < |es| ==> Pends(es, objs, m, n, k)
  }

  ghost predicate Pends(es: seq<Entry>, objs: set<HashItemBuilder>, m: Items, n: nat, k: nat)
    requires objs == EntryItems(es) && k < |es|
    reads objs
  {
    var x := es[k].1;
    x.assignedIndex as int == k && x.key in m
    && x.value == (if k < n then Default() else m[x.key])
    && (x.parent.Some? ==> ParentIn(es, objs, m, x.parent.value, x.key))
  }

  ghost predicate ParentIn(es: seq<Entry>, objs: set<HashItemBuilder>, m: Items, p: HashItemBuilder, key: bytes)
    requires objs == EntryItems(es)
    reads objs
  {
    p in objs && p.assignedIndex as int < |es| && es[p.assignedIndex].1 == p
    && p.key in m && m[p.key].Container? && key in m[p.key].children
  }

  /** The item `get` finds for a key is the item at the key's position, with that index. */
  lemma FoundItem(es: seq<Entry>, objs: set<HashItemBuilder>, bs: seq<Chain>, m: Items, n: nat,
                  c: bytes, ci: HashItemBuilder)
    requires objs == EntryItems(es) && Listed(es, m) && Finds(es, bs, m) && |bs| > 0
    requires Pending(es, objs, m, n) && LookupIn(bs, c) == Some(ci)
    ensures c in m && c in EntryKeys(es) && ci in objs && ci.key == c
    ensures ci.assignedIndex as int == IndexIn(EntryKeys(es), c)
  {
    var k := IndexIn(EntryKeys(es), c);
    assert Pends(es, objs, m, n, k);
    assert es[k].1 in EntryItems(es);
  }

  /** The chain's items are the entries from `start` on. */
  predicate InChain(es: seq<Entry>, chain: Chain, start: nat)
  {
    start + |chain| <= |es| && forall k :: start <= k < start + |chain| ==> ItemOf(es, k) == chain[k - start]
  }

  /** A writer is none of the table's items. */
  lemma NotAnItem(w: FileWriter, objs: set<HashItemBuilder>)
    ensures forall o :: o in objs ==> o as object != w as object
  {
  }

  /** `value().take()` on item n: its value comes out and the default takes its place. */
  method TakeItemValue(x: HashItemBuilder, n: nat, ghost m: Items, ghost es: seq<Entry>, ghost objs: set<HashItemBuilder>)
    returns (value: HashValue)
    requires objs == EntryItems(es) && n < |es| && es[n].1 == x && Pending(es, objs, m, n)
    modifies x
    ensures Pending(es, objs, m, n + 1) && x.key in m && value == m[x.key]
    ensures x.parent == old(x.parent) && x.assignedIndex == old(x.assignedIndex)
  {
    var n1 := n + 1;
    assert Pends(es, objs, m, n, n);
    value := x.TakeValue();
    forall k | 0 <= k < |es| ensures Pends(es, objs, m, n1, k) {
      assert old(Pends(es, objs, m, n, k));
      var y := es[k].1;
      if y.parent.Some? {
        assert old(ParentIn(es, objs, m, y.parent.value, y.key));
      }
    }
  }

  /**
   * `set_parent` of a child of the container item x (item n): the items stay as Pending
   * says, the child now with x as its parent.
   */
  method SetChildParent(ci: HashItemBuilder, x: HashItemBuilder, n: nat, ghost m: Items,
                        ghost es: seq<Entry>, ghost objs: set<HashItemBuilder>)
    requires objs == EntryItems(es) && Pending(es, objs, m, n + 1)
    requires n < |es| && es[n].1 == x && x.key in m && m[x.key].Container?
    requires ci in objs && ci.key in m[x.key].children
    modifies ci
    ensures Pending(es, objs, m, n + 1) && ci.parent == Some(x) && ci.assignedIndex == old(ci.assignedIndex)
  {
    var n1 := n + 1;
    assert Pends(es, objs, m, n1, n);
    assert es[n].1 in EntryItems(es);
    ci.SetParent(Some(x));
    forall k | 0 <= k < |es| ensures Pends(es, objs, m, n1, k) {
      assert old(Pends(es, objs, m, n1, k));
      var y := es[k].1;
      if y.parent.Some? && y != ci {
        assert old(ParentIn(es, objs, m, y.parent.value, y.key));
      }
    }
  }

  /**
   * A table chunk while its items are written: the bucket words and the records of the
   * items so far are in place, and those items, the first keys in `iter` order, are written
   * as ItemWritten says.
   */
  ghost predicate Filling(cs: seq<Chunk>, ti: nat, m: Items, keys: seq<bytes>, words: seq<u32>, ws: seq<Written>)
  {
    ti < |cs| && |keys| == |m| < U32_LIMIT && |words| <= |m| && |ws| <= |m|
    && KeysAre(ws, keys, m)
    && cs[ti].data == TableLayout(|m| as u32, words, RecordsOf(m, ws), |m|)
    && ItemsWritten(cs, ti, m, keys, ws)
  }

  /** The items written so far have the first keys, which are keys of the map. */
  predicate KeysAre(ws: seq<Written>, keys: seq<bytes>, m: Items)
  {
    |ws| <= |keys| && forall i :: 0 <= i < |ws| ==> ws[i].key == keys[i] && ws[i].key in m
  }

  /** Appending chunks and changing none from the table's on keeps a table being filled. */
  lemma FillingKept(cs: seq<Chunk>, cs': seq<Chunk>, ti: nat, m: Items, keys: seq<bytes>, words: seq<u32>, ws: seq<Written>)
    requires Filling(cs, ti, m, keys, words, ws)
    requires |cs| <= |cs'| && forall k :: ti <= k < |cs| ==> cs'[k] == cs[k]
    ensures Filling(cs', ti, m, keys, words, ws)
  {
    ItemsWrittenFrame(cs, cs', ti, m, keys, ws);
  }

  /** The next bucket word copied into the table chunk. */
  lemma FillingWord(cs: seq<Chunk>, ti: nat, m: Items, keys: seq<bytes>, words: seq<u32>, ws: seq<Written>, b: nat, wd: u32)
    requires Filling(cs, ti, m, keys, words, ws) && |words| == b < |m|
    ensures ReadHash.HASH_HEADER_SIZE + 4 * b + 4 <= |cs[ti].data|
    ensures Filling(cs[ti := Chunk(cs[ti].pointer, Splice(cs[ti].data, ReadHash.HASH_HEADER_SIZE + 4 * b, LeBytes32(wd)))],
                    ti, m, keys, words + [wd], ws)
  {
    TableLayoutWord(|m| as u32, words, RecordsOf(m, ws), |m|, wd);
    var cs' := cs[ti := Chunk(cs[ti].pointer, Splice(cs[ti].data, ReadHash.HASH_HEADER_SIZE + 4 * b, LeBytes32(wd)))];
    ItemsWrittenFrame(cs, cs', ti, m, keys, ws);
  }

  /** The next item's record copied into the table chunk. */
  lemma FillingRecord(cs: seq<Chunk>, ti: nat, m: Items, keys: seq<bytes>, words: seq<u32>, ws: seq<Written>,
                       nb: nat, n: nat, w: Written)
    requires Filling(cs, ti, m, keys, words, ws) && |ws| == n < |m| == nb
    requires w.key == keys[n] && ItemWritten(cs, ti, m, keys, w)
    ensures RecordAt(nb, n) + ReadHashItem.HASH_ITEM_SIZE <= |cs[ti].data|
    ensures Filling(cs[ti := Chunk(cs[ti].pointer, Splice(cs[ti].data, RecordAt(nb, n), ReadHashItem.Encode(RecordOf(m, w))))],
                    ti, m, keys, words, ws + [w])
  {
    var d := Splice(cs[ti].data, RecordAt(nb, n), ReadHashItem.Encode(RecordOf(m, w)));
    TableLayoutRecord(|m| as u32, words, RecordsOf(m, ws), |m|, RecordOf(m, w));
    RecordsOfSnoc(m, ws, w);
    assert d == TableLayout(|m| as u32, words, RecordsOf(m, ws + [w]), |m|);
    ItemsWrittenSnoc(cs, ti, m, keys, ws, w);
    ItemsWrittenPatched(cs, ti, d, m, keys, ws + [w]);
    KeysAreSnoc(ws, keys, m, w);
  }

  /** Where record i of a table with nb buckets starts in its chunk. */
  function RecordAt(nb: nat, i: nat): nat
  {
    ReadHash.HASH_HEADER_SIZE + 4 * nb + ReadHashItem.HASH_ITEM_SIZE * i
  }

  lemma KeysAreSnoc(ws: seq<Written>, keys: seq<bytes>, m: Items, w: Written)
    requires KeysAre(ws, keys, m) && |ws| < |keys| && w.key == keys[|ws|] && w.key in m
    ensures KeysAre(ws + [w], keys, m)
  {
  }

  /** Other bytes in the table chunk keep its items written. */
  lemma ItemsWrittenPatched(cs: seq<Chunk>, ti: nat, d: bytes, m: Items, keys: seq<bytes>, ws: seq<Written>)
    requires ti < |cs| && ItemsWritten(cs, ti, m, keys, ws)
    ensures ItemsWritten(cs[ti := Chunk(cs[ti].pointer, d)], ti, m, keys, ws)
  {
    ItemsWrittenFrame(cs, cs[ti := Chunk(cs[ti].pointer, d)], ti, m, keys, ws);
  }

  lemma RecordsOfSnoc(m: Items, ws: seq<Written>, w: Written)
    requires (forall i :: 0 <= i < |ws| ==> ws[i].key in m) && w.key in m
    ensures RecordsOf(m, ws + [w]) == RecordsOf(m, ws) + [RecordOf(m, w)]
  {
  }

  /** A table chunk with the header and zeros is a table with nothing written yet. */
  lemma FillingStart(cs: seq<Chunk>, ti: nat, m: Items, keys: seq<bytes>)
    requires ti < |cs| && |keys| == |m| < U32_LIMIT
    requires cs[ti].data == TableLayout(|m| as u32, [], [], |m|)
    ensures Filling(cs, ti, m, keys, [], [])
  {
  }

  /** The first b buckets are done: nItem items below bucket b, a word for each bucket. */
  predicate Counted(bs: seq<Chain>, b: nat, words: seq<u32>, nItem: nat)
  {
    b <= |bs| && |words| == b && nItem == TotalLen(bs[..b]) && WordsAre(words, bs)
  }

  lemma CountedAll(bs: seq<Chain>, words: seq<u32>, nItem: nat)
    requires Counted(bs, |bs|, words, nItem)
    ensures nItem == TotalLen(bs) && |words| == |bs| && WordsAre(words, bs)
  {
    assert bs[..|bs|] == bs;
  }

  /** Each bucket word counts the items of the buckets below it. */
  predicate WordsAre(words: seq<u32>, bs: seq<Chain>)
  {
    |words| <= |bs| && forall b :: 0 <= b < |words| ==> words[b] as int == TotalLen(bs[..b])
  }

  /**
   * Bucket b's word is the number of items below it, and its chain is the run of entries
   * from there on.
   */
  lemma BucketFacts(es: seq<Entry>, bs: seq<Chain>, b: nat, words: seq<u32>, nItem: nat)
    requires es == Flatten(bs) && b < |bs| && |es| < U32_LIMIT && Counted(bs, b, words, nItem)
    ensures nItem < U32_LIMIT && InChain(es, bs[b], nItem)
    ensures Counted(bs, b + 1, words + [nItem as u32], nItem + |bs[b]|)
  {
    TotalLenPrefix(bs, b);
    WordsSnoc(words, bs, nItem as u32);
    FlattenBucket(bs, b);
    TotalLenSnoc(bs, b);
  }

  /** One more bucket word, counting the items below it. */
  lemma WordsSnoc(words: seq<u32>, bs: seq<Chain>, w: u32)
    requires WordsAre(words, bs) && |words| < |bs| && w as int == TotalLen(bs[..|words|])
    ensures WordsAre(words + [w], bs)
  {
  }

  /**
   * A table chunk with every bucket word and every record in place is a written table: the
   * words count the items of the buckets before each, which are the items of lower buckets.
   */
  lemma TableDone(cs: seq<Chunk>, ti: nat, m: Items, es: seq<Entry>, bs: seq<Chain>, words: seq<u32>, ws: seq<Written>)
    requires Indexed(es, bs, m) && Filling(cs, ti, m, EntryKeys(es), words, ws)
    requires Counted(bs, |bs|, words, |ws|) && cs[ti].pointer.start % 4 == 0
    ensures TableWritten(cs, ti, m, TableInfo(words, ws))
  {
    CountedAll(bs, words, |ws|);
    TableFilled(cs, ti, m, es, bs, words, ws);
  }

  /** TableDone with the counts spelled out. */
  lemma TableFilled(cs: seq<Chunk>, ti: nat, m: Items, es: seq<Entry>, bs: seq<Chain>, words: seq<u32>, ws: seq<Written>)
    requires Indexed(es, bs, m) && Filling(cs, ti, m, EntryKeys(es), words, ws)
    requires |ws| == |m| && |words| == |m| && cs[ti].pointer.start % 4 == 0 && WordsAre(words, bs)
    ensures TableWritten(cs, ti, m, TableInfo(words, ws))
  {
    assert KeysOf(ws) == EntryKeys(es);
    DoneWords(m, es, bs, words, ws);
  }

  /** The bucket words count the items of the lower buckets. */
  lemma DoneWords(m: Items, es: seq<Entry>, bs: seq<Chain>, words: seq<u32>, ws: seq<Written>)
    requires Indexed(es, bs, m) && KeysAre(ws, EntryKeys(es), m)
    requires |ws| == |m| && |words| == |m|
    requires forall b :: 0 <= b < |words| ==> words[b] as int == TotalLen(bs[..b])
    ensures BucketWords(words, ws)
  {
    forall b | 0 <= b < |ws| ensures words[b] as int <= |ws| {
      TotalLenPrefix(bs, b);
    }
    forall b, i | 0 <= b < |ws| && 0 <= i < |ws|
      ensures i < words[b] as int <==> BucketOf(DjbHash(ws[i].key), |ws|) < b
    {
      FlattenBelow(bs, b, i);
    }
  }

  /** A chunk start aligned to 4 or 8 stays aligned in its 32-bit pointer. */
  lemma AlignedStart(start: nat, end: nat, a: nat)
    requires (a == 4 || a == 8) && start % a == 0
    ensures ReadPointer.New(start, end).start % a == 0
  {
    var q := start / U32_LIMIT;
    assert start == q * U32_LIMIT + start % U32_LIMIT;
    assert q * U32_LIMIT == a * (q * (U32_LIMIT / a));
  }

  /**
   * The container chunk vc while its slots are filled: the first i children are keys of the
   * table and their indices are in place, the other slots are zeros.
   */
  predicate SlotsFilled(cs: seq<Chunk>, vc: nat, keys: seq<bytes>, children: seq<bytes>, i: nat)
  {
    vc < |cs| && i <= |children| && |keys| <= U32_LIMIT
    && (forall c :: c in children[..i] ==> c in keys)
    && cs[vc].data == Words(ChildIndices(keys, children[..i])) + Zeros(4 * (|children| - i))
  }

  lemma SlotsStart(cs: seq<Chunk>, vc: nat, keys: seq<bytes>, children: seq<bytes>)
    requires vc < |cs| && cs[vc].data == Zeros(4 * |children|) && |keys| <= U32_LIMIT
    ensures SlotsFilled(cs, vc, keys, children, 0)
  {
    assert children[..0] == [];
  }

  lemma SlotsDone(cs: seq<Chunk>, vc: nat, keys: seq<bytes>, children: seq<bytes>)
    requires SlotsFilled(cs, vc, keys, children, |children|)
    ensures (forall c :: c in children ==> c in keys) && cs[vc].data == Words(ChildIndices(keys, children))
  {
    assert children[..|children|] == children;
  }

  lemma ChildSlot(keys: seq<bytes>, children: seq<bytes>, i: nat, w: u32)
    requires |keys| <= U32_LIMIT && i < |children| && children[i] in keys && w as int == IndexIn(keys, children[i])
    requires forall c :: c in children[..i] ==> c in keys
    ensures forall c :: c in children[..i + 1] ==> c in keys
    ensures 4 * i + 4 <= |Words(ChildIndices(keys, children[..i])) + Zeros(4 * (|children| - i))|
    ensures Splice(Words(ChildIndices(keys, children[..i])) + Zeros(4 * (|children| - i)), 4 * i, LeBytes32(w))
            == Words(ChildIndices(keys, children[..i + 1])) + Zeros(4 * (|children| - (i + 1)))
  {
    ChildIndicesSnoc(keys, children, i);
    WordsGrow(ChildIndices(keys, children[..i]), w, |children|);
  }

  lemma ChildIndicesSnoc(keys: seq<bytes>, children: seq<bytes>, i: nat)
    requires |keys| <= U32_LIMIT && i < |children| && children[i] in keys
    requires forall c :: c in children[..i] ==> c in keys
    ensures forall c :: c in children[..i + 1] ==> c in keys
    ensures ChildIndices(keys, children[..i + 1]) == ChildIndices(keys, children[..i]) + [IndexIn(keys, children[i]) as u32]
  {
    KeyOrder.TakeOneMore(children, i);
    InKeysSnoc(keys, children[..i], children[i]);
    IndicesAppend(keys, children[..i], children[i], children[..i + 1]);
  }

  lemma InKeysSnoc(keys: seq<bytes>, front: seq<bytes>, x: bytes)
    requires x in keys && forall c :: c in front ==> c in keys
    ensures forall c :: c in front + [x] ==> c in keys
  {
  }

  lemma IndicesAppend(keys: seq<bytes>, front: seq<bytes>, x: bytes, longer: seq<bytes>)
    requires |keys| <= U32_LIMIT && longer == front + [x]
    requires (forall c :: c in front ==> c in keys) && forall c :: c in longer ==> c in keys
    ensures ChildIndices(keys, longer) == ChildIndices(keys, front) + [IndexIn(keys, x) as u32]
  {
    var a, b := ChildIndices(keys, longer), ChildIndices(keys, front) + [IndexIn(keys, x) as u32];
    forall j | 0 <= j < |a|
      ensures a[j] == b[j]
    {
      var y := a[j];
      assert y == IndexIn(keys, longer[j]) as u32;
    }
  }

  /**
   * The items of a table `build` returned, in `iter` order: each holds its key's value, and
   * a parent is an item of the table whose key holds a container listing the child.
   */
  ghost predicate Linked(es: seq<Entry>, m: Items)
    reads EntryItems(es)
  {
    forall k :: 0 <= k < |es| ==> Links(es, m, k)
  }

  ghost predicate Links(es: seq<Entry>, m: Items, k: nat)
    requires k < |es|
    reads EntryItems(es)
  {
    var x := es[k].1;
    x.key in m && x.value == m[x.key]
    && (x.parent.Some? ==> x.parent.value in EntryItems(es) && x.parent.value.key in m
                           && m[x.parent.value.key].Container? && x.key in m[x.parent.value.key].children)
  }

  /** What `build` promises about its table, stated on the items in `iter` order. */
  lemma LinkedFromBuilt(t: SimpleHashTable, es: seq<Entry>, m: Items)
    requires Indexed(es, t.buckets, m) && WriteBuilder.Filled(t, m) && WriteBuilder.ParentsLinked(t)
    ensures Linked(es, m)
  {
    forall k | 0 <= k < |es| ensures Links(es, m, k) {
      assert es[k].1 in EntryItems(es);
    }
  }

  /**
   * The first loop of `add_simple_hash_table`, with what `iter` yields: the items in bucket
   * order, each key once, item k with index k.
   */
  method IndexItems(t: SimpleHashTable, ghost m: Items) returns (es: seq<Entry>, ghost objs: set<HashItemBuilder>)
    requires WriteBuilder.Filled(t, m) && WriteBuilder.ParentsLinked(t) && |m| < U32_LIMIT
    modifies t.ItemSet()
    ensures es == Flatten(t.buckets) && objs == EntryItems(es) == t.ItemSet() && |t.buckets| == t.nItems == |m|
    ensures Indexed(es, t.buckets, m) && Listed(es, m) && Finds(es, t.buckets, m)
    ensures Pending(es, objs, m, 0)
  {
    es := t.Entries();
    EntriesIndexed(t.buckets, m);
    IndexedListed(es, t.buckets, m);
    IndexedFinds(es, t.buckets, m);
    LinkedFromBuilt(t, es, m);
    objs := EntryItems(es);
    AssignIndices(es, objs, m);
  }

  method AssignIndices(es: seq<Entry>, ghost objs: set<HashItemBuilder>, ghost m: Items)
    requires objs == EntryItems(es)
    requires Distinct(EntryKeys(es)) && |es| <= U32_LIMIT && Linked(es, m)
    modifies objs
    ensures Pending(es, objs, m, 0)
  {
    for index := 0 to |es|
      invariant forall k :: 0 <= k < index ==> es[k].1.assignedIndex as int == k
      invariant forall y :: y in EntryItems(es) ==> y.value == old(y.value) && y.parent == old(y.parent)
    {
      assert forall k :: 0 <= k < index ==> EntryKeys(es)[k] != EntryKeys(es)[index];
      es[index].1.SetAssignedIndex(index as u32);
    }
    forall k | 0 <= k < |es| ensures Pends(es, objs, m, 0, k) {
      assert es[k].1 in EntryItems(es);
      assert old(Links(es, m, k));
      var x := es[k].1;
      if x.parent.Some? {
        var p := x.parent.value;
        var j :| 0 <= j < |es| && es[j].1 == p;
      }
    }
  }
}
