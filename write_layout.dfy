/**
 * The byte layout `FileWriter` produces (gvdb/src/write/file.rs): chunks placed one after
 * the other at aligned offsets, the bytes `serialize` emits for them, and the image of a
 * hash table chunk (header, bucket words, item records).
 */
module WriteLayout {
  import opened GvdbUtil
  import opened Wrappers
  import opened WriteItem
  import ReadPointer
  import ReadHashItem
  import ReadHash

  /** `Chunk`: the bytes of one allocation and the range they occupy in the finished file. */
  datatype Chunk = Chunk(pointer: ReadPointer.Pointer, data: bytes)

  function Zeros(n: nat): (r: bytes)
    ensures |r| == n && forall i :: 0 <= i < n ==> r[i] == 0
  {
    seq(n, _ => 0)
  }

  /** `data[at..at + |b|].copy_from_slice(b)`: b replaces the bytes at `at`, the rest stays. */
  function Splice(data: bytes, at: nat, b: bytes): (r: bytes)
    requires at + |b| <= |data|
    ensures |r| == |data|
    ensures r[..at] == data[..at] && r[at..at + |b|] == b && r[at + |b|..] == data[at + |b|..]
  {
    data[..at] + b + data[at + |b|..]
  }

  /** Splicing over a middle part of the same length replaces exactly that part. */
  lemma SpliceMiddle(pre: bytes, mid: bytes, post: bytes, b: bytes)
    requires |mid| == |b|
    ensures Splice(pre + mid + post, |pre|, b) == pre + b + post
  {
    var d := pre + mid + post;
    assert d[..|pre|] == pre;
    assert d[|pre| + |b|..] == post;
  }

  /**
   * Chunks as `allocate_chunk_with_data` lays them out: chunk i's bytes start at `starts[i]`,
   * its pointer is that range (cut to 32 bits as `Pointer::new` does), the chunks follow one
   * another without overlapping, and `offset` is where the last one ends.
   */
  predicate Laid(cs: seq<Chunk>, starts: seq<nat>, offset: nat)
  {
    |starts| == |cs|
    && (forall i :: 0 <= i < |cs| ==>
          cs[i].pointer == ReadPointer.New(starts[i], starts[i] + |cs[i].data|)
          && starts[i] + |cs[i].data| <= offset)
    && (forall i, j :: 0 <= i < j < |cs| ==> starts[i] + |cs[i].data| <= starts[j])
    && (|cs| == 0 ==> offset == 0)
    && (|cs| > 0 ==> starts[|cs| - 1] + |cs[|cs| - 1].data| == offset)
  }

  /** The chunks before the last one are laid out up to where the one before the last ends. */
  lemma LaidFront(cs: seq<Chunk>, starts: seq<nat>, offset: nat) returns (off': nat)
    requires Laid(cs, starts, offset) && |cs| > 0
    ensures var n := |cs| - 1; Laid(cs[..n], starts[..n], off') && off' <= starts[n]
    ensures off' == if |cs| == 1 then 0 else starts[|cs| - 2] + |cs[|cs| - 2].data|
  {
    var n := |cs| - 1;
    off' := if n == 0 then 0 else starts[n - 1] + |cs[n - 1].data|;
    var pre, sp := cs[..n], starts[..n];
    forall i | 0 <= i < n
      ensures starts[i] + |cs[i].data| <= off'
    {
      if i < n - 1 {
        assert starts[i] + |cs[i].data| <= starts[n - 1];
      }
    }
  }

  /** No chunk covers byte p. */
  predicate Gap(cs: seq<Chunk>, starts: seq<nat>, p: nat)
    requires |starts| == |cs|
  {
    forall i :: 0 <= i < |cs| ==> !(starts[i] <= p < starts[i] + |cs[i].data|)
  }

  /**
   * What `serialize` writes for the chunks, and the size it counts: before each chunk, zeros
   * up to the chunk's start when the bytes so far fall short of it, then the chunk's bytes.
   */
  function Emit(cs: seq<Chunk>): (r: (bytes, nat))
    decreases |cs|
  {
    if cs == [] then ([], 0) else EmitChunk(Emit(cs[..|cs| - 1]), cs[|cs| - 1])
  }

  /** One chunk after the bytes `prev.0`, of counted size `prev.1`. */
  function EmitChunk(prev: (bytes, nat), c: Chunk): (r: (bytes, nat))
    ensures prev.1 >= c.pointer.start ==> r.0 == prev.0 + c.data
  {
    assert prev.0 + Zeros(0) == prev.0;
    var pad: nat := if prev.1 < c.pointer.start then c.pointer.start - prev.1 else 0;
    (prev.0 + Zeros(pad) + c.data, prev.1 + pad + ReadPointer.Size(c.pointer))
  }

  lemma EmitTakeOneMore(cs: seq<Chunk>, i: nat)
    requires i < |cs|
    ensures Emit(cs[..i + 1]) == EmitChunk(Emit(cs[..i]), cs[i])
  {
    assert cs[..i + 1][..i] == cs[..i];
  }

  /** Each chunk's bytes sit at its start in `out`. */
  predicate Holds(out: bytes, cs: seq<Chunk>, starts: seq<nat>)
    requires |starts| == |cs|
  {
    forall i :: 0 <= i < |cs| ==>
      starts[i] + |cs[i].data| <= |out| && out[starts[i]..starts[i] + |cs[i].data|] == cs[i].data
  }

  /** Every byte of `out` that no chunk covers is zero. */
  predicate ZeroGaps(out: bytes, cs: seq<Chunk>, starts: seq<nat>)
    requires |starts| == |cs|
  {
    forall p :: 0 <= p < |out| && Gap(cs, starts, p) ==> out[p] == 0
  }

  /**
   * For chunks laid out below 4 GiB, `serialize` counts and writes exactly `offset` bytes:
   * each chunk's bytes at its start, zeros in the gaps between chunks.
   */
  lemma {:induction false} EmitLaid(cs: seq<Chunk>, starts: seq<nat>, offset: nat)
    requires Laid(cs, starts, offset) && offset < U32_LIMIT
    ensures Emit(cs).1 == offset && |Emit(cs).0| == offset
    ensures Holds(Emit(cs).0, cs, starts) && ZeroGaps(Emit(cs).0, cs, starts)
    decreases |cs|
  {
    if cs != [] {
      var n := |cs| - 1;
      var off' := LaidFront(cs, starts, offset);
      EmitLaid(cs[..n], starts[..n], off');
      EmitSnoc(cs, starts[n], off');
      EmitLast(Emit(cs[..n]).0, Emit(cs).0, cs, starts, off');
    }
  }

  /** One more chunk, starting at or after the bytes written so far, below 4 GiB. */
  lemma EmitSnoc(cs: seq<Chunk>, start: nat, off': nat)
    requires |cs| > 0 && Emit(cs[..|cs| - 1]).1 == off' <= start
    requires start + |cs[|cs| - 1].data| < U32_LIMIT
    requires cs[|cs| - 1].pointer == ReadPointer.New(start, start + |cs[|cs| - 1].data|)
    ensures Emit(cs) == (Emit(cs[..|cs| - 1]).0 + Zeros(start - off') + cs[|cs| - 1].data,
                         start + |cs[|cs| - 1].data|)
  {
    var c := cs[|cs| - 1];
    assert c.pointer.start == start && ReadPointer.Size(c.pointer) == |c.data|;
    assert Emit(cs) == EmitChunk(Emit(cs[..|cs| - 1]), c);
  }

  /** The last chunk after zero padding: what was placed before stays, the new chunk follows. */
  lemma EmitLast(prev: bytes, out: bytes, cs: seq<Chunk>, starts: seq<nat>, off': nat)
    requires |starts| == |cs| > 0 && |prev| == off' <= starts[|cs| - 1]
    requires out == prev + Zeros(starts[|cs| - 1] - off') + cs[|cs| - 1].data
    requires Holds(prev, cs[..|cs| - 1], starts[..|cs| - 1])
    requires ZeroGaps(prev, cs[..|cs| - 1], starts[..|cs| - 1])
    ensures Holds(out, cs, starts) && ZeroGaps(out, cs, starts)
  {
    var n := |cs| - 1;
    forall i | 0 <= i < |cs|
      ensures starts[i] + |cs[i].data| <= |out| && out[starts[i]..starts[i] + |cs[i].data|] == cs[i].data
    {
      if i < n {
        assert cs[..n][i] == cs[i] && starts[..n][i] == starts[i];
        SliceOfFront(out, prev, starts[i], starts[i] + |cs[i].data|);
      } else {
        assert out[starts[n]..] == cs[n].data;
      }
    }
    forall p | 0 <= p < |out| && Gap(cs, starts, p)
      ensures out[p] == 0
    {
      GapFront(cs, starts, p);
    }
  }

  lemma SliceOfFront(a: bytes, b: bytes, i: nat, j: nat)
    requires |b| <= |a| && a[..|b|] == b && i <= j <= |b|
    ensures a[i..j] == b[i..j]
  {
    forall k | 0 <= k < j - i
      ensures a[i..j][k] == b[i..j][k]
    {
      assert a[i + k] == a[..|b|][i + k];
    }
  }

  /** A byte no chunk covers is not covered by the chunks before the last one either. */
  lemma GapFront(cs: seq<Chunk>, starts: seq<nat>, p: nat)
    requires |starts| == |cs| > 0 && Gap(cs, starts, p)
    ensures Gap(cs[..|cs| - 1], starts[..|cs| - 1], p)
    ensures !(starts[|cs| - 1] <= p < starts[|cs| - 1] + |cs[|cs| - 1].data|)
  {
  }

  /** The little-endian words, one after another. */
  function Words(ws: seq<u32>): (r: bytes)
    ensures |r| == 4 * |ws|
    decreases |ws|
  {
    if ws == [] then [] else Words(ws[..|ws| - 1]) + LeBytes32(ws[|ws| - 1])
  }

  /** Word i sits at byte 4 * i. */
  lemma {:induction false} WordsAt(ws: seq<u32>, i: nat)
    requires i < |ws|
    ensures Words(ws)[4 * i..4 * i + 4] == LeBytes32(ws[i])
    decreases |ws|
  {
    var n := |ws| - 1;
    if i < n {
      WordsAt(ws[..n], i);
      assert Words(ws)[..4 * n] == Words(ws[..n]);
    }
  }

  /** The 24-byte records, one after another. */
  function Records(rs: seq<ReadHashItem.HashItem>): (r: bytes)
    ensures |r| == ReadHashItem.HASH_ITEM_SIZE * |rs|
    decreases |rs|
  {
    if rs == [] then [] else Records(rs[..|rs| - 1]) + ReadHashItem.Encode(rs[|rs| - 1])
  }

  /** Record i sits at byte 24 * i. */
  lemma {:induction false} RecordsAt(rs: seq<ReadHashItem.HashItem>, i: nat)
    requires i < |rs|
    ensures Records(rs)[24 * i..24 * i + 24] == ReadHashItem.Encode(rs[i])
    decreases |rs|
  {
    var n := |rs| - 1;
    if i < n {
      RecordsAt(rs[..n], i);
      assert Records(rs)[..24 * n] == Records(rs[..n]);
    }
  }

  /** The header `add_simple_hash_table` writes: bloom shift 5, no bloom words, nb buckets. */
  function TableHeader(nb: u32): ReadHash.HashHeader
  {
    ReadHash.NewHashHeader(5, 0, nb)
  }

  /**
   * A hash table chunk while `add_simple_hash_table` fills it: the header, the bucket words
   * and records written so far, and zeros where the others go.
   */
  function TableLayout(nb: u32, words: seq<u32>, recs: seq<ReadHashItem.HashItem>, n: nat): (r: bytes)
    requires |words| <= nb && |recs| <= n
    ensures |r| == ReadHash.HASH_HEADER_SIZE + 4 * nb + ReadHashItem.HASH_ITEM_SIZE * n
  {
    ReadHash.EncodeHashHeader(TableHeader(nb)) + Words(words) + Zeros(4 * (nb - |words|))
    + Records(recs) + Zeros(ReadHashItem.HASH_ITEM_SIZE * (n - |recs|))
  }

  /** The empty chunk with the header copied in is the layout with nothing else written. */
  lemma TableLayoutStart(nb: u32, n: nat)
    ensures Splice(Zeros(8 + 4 * nb + 24 * n), 0, ReadHash.EncodeHashHeader(TableHeader(nb)))
            == TableLayout(nb, [], [], n)
  {
    var h := ReadHash.EncodeHashHeader(TableHeader(nb));
    var z := Zeros(8 + 4 * nb + 24 * n);
    assert z == Zeros(8) + Zeros(4 * nb + 24 * n);
    SpliceMiddle([], Zeros(8), Zeros(4 * nb + 24 * n), h);
    assert Zeros(4 * nb + 24 * n) == Words([]) + Zeros(4 * nb) + Records([]) + Zeros(24 * n);
  }

  /** Copying the next bucket word into its slot extends the written words by it. */
  lemma TableLayoutWord(nb: u32, words: seq<u32>, recs: seq<ReadHashItem.HashItem>, n: nat, w: u32)
    requires |words| < nb && |recs| <= n
    ensures 8 + 4 * |words| + 4 <= |TableLayout(nb, words, recs, n)|
    ensures Splice(TableLayout(nb, words, recs, n), 8 + 4 * |words|, LeBytes32(w))
            == TableLayout(nb, words + [w], recs, n)
  {
    var pre := ReadHash.EncodeHashHeader(TableHeader(nb)) + Words(words);
    var post := Zeros(4 * (nb - |words| - 1)) + Records(recs) + Zeros(24 * (n - |recs|));
    assert Zeros(4 * (nb - |words|)) == Zeros(4) + Zeros(4 * (nb - |words| - 1));
    assert TableLayout(nb, words, recs, n) == pre + Zeros(4) + post;
    SpliceMiddle(pre, Zeros(4), post, LeBytes32(w));
    assert (words + [w])[..|words|] == words;
    assert TableLayout(nb, words + [w], recs, n) == pre + LeBytes32(w) + post;
  }

  /** A container chunk while its child indices are copied in: the ones so far, then zeros. */
  lemma WordsGrow(ws: seq<u32>, w: u32, n: nat)
    requires |ws| < n
    ensures 4 * |ws| + 4 <= |Words(ws) + Zeros(4 * (n - |ws|))|
    ensures Splice(Words(ws) + Zeros(4 * (n - |ws|)), 4 * |ws|, LeBytes32(w))
            == Words(ws + [w]) + Zeros(4 * (n - |ws| - 1))
  {
    var post := Zeros(4 * (n - |ws| - 1));
    assert Zeros(4 * (n - |ws|)) == Zeros(4) + post;
    SpliceMiddle(Words(ws), Zeros(4), post, LeBytes32(w));
    assert (ws + [w])[..|ws|] == ws;
  }

  /** Copying the next record into its slot extends the written records by it. */
  lemma TableLayoutRecord(nb: u32, words: seq<u32>, recs: seq<ReadHashItem.HashItem>, n: nat,
                          item: ReadHashItem.HashItem)
    requires |words| <= nb && |recs| < n
    ensures 8 + 4 * nb + 24 * |recs| + 24 <= |TableLayout(nb, words, recs, n)|
    ensures Splice(TableLayout(nb, words, recs, n), 8 + 4 * nb + 24 * |recs|, ReadHashItem.Encode(item))
            == TableLayout(nb, words, recs + [item], n)
  {
    var pre := ReadHash.EncodeHashHeader(TableHeader(nb)) + Words(words) + Zeros(4 * (nb - |words|)) + Records(recs);
    var post := Zeros(24 * (n - |recs| - 1));
    assert Zeros(24 * (n - |recs|)) == Zeros(24) + post;
    assert TableLayout(nb, words, recs, n) == pre + Zeros(24) + post;
    SpliceMiddle(pre, Zeros(24), post, ReadHashItem.Encode(item));
    assert (recs + [item])[..|recs|] == recs;
    assert TableLayout(nb, words, recs + [item], n) == pre + ReadHashItem.Encode(item) + post;
  }

  type Items = map<bytes, HashValue>

  /**
   * What `add_simple_hash_table` put down for one item: its key, the index of its parent
   * item (none for a root), the chunks holding its stored key and its value with their
   * pointers, and, for a nested table, what was written for that table.
   */
  datatype Written = Written(key: bytes, parent: Option<u32>, keyChunk: nat, valueChunk: nat,
                             keyPtr: ReadPointer.Pointer, valuePtr: ReadPointer.Pointer, sub: TableInfo)

  /** What was written for a table: its bucket words and its items in index order. */
  datatype TableInfo = TableInfo(words: seq<u32>, items: seq<Written>)

  function KeysOf(ws: seq<Written>): (r: seq<bytes>)
    ensures |r| == |ws| && forall i :: 0 <= i < |ws| ==> r[i] == ws[i].key
  {
    seq(|ws|, i requires 0 <= i < |ws| => ws[i].key)
  }

  /** The parent word of a record: the parent's index, or 0xffffffff for a root. */
  function ParentWord(p: Option<u32>): u32
  {
    if p.Some? then p.value else U32_MAX
  }

  /** The record `HashItem::new` builds for a written item. */
  function RecordOf(m: Items, w: Written): ReadHashItem.HashItem
    requires w.key in m
  {
    ReadHashItem.New(DjbHash(w.key), ParentWord(w.parent), w.keyPtr, Typ(m[w.key]), w.valuePtr)
  }

  function RecordsOf(m: Items, ws: seq<Written>): (r: seq<ReadHashItem.HashItem>)
    requires forall i :: 0 <= i < |ws| ==> ws[i].key in m
    ensures |r| == |ws| && forall i :: 0 <= i < |ws| ==> r[i] == RecordOf(m, ws[i])
  {
    seq(|ws|, i requires 0 <= i < |ws| => RecordOf(m, ws[i]))
  }

  /** The first position of a key. */
  function IndexIn(keys: seq<bytes>, k: bytes): (r: nat)
    requires k in keys
    ensures r < |keys| && keys[r] == k && forall j :: 0 <= j < r ==> keys[j] != k
  {
    if keys[0] == k then 0 else 1 + IndexIn(keys[1..], k)
  }

  /** The item indices a container chunk lists, one per child. */
  function ChildIndices(keys: seq<bytes>, children: seq<bytes>): (r: seq<u32>)
    requires |keys| <= U32_LIMIT && forall c :: c in children ==> c in keys
    ensures |r| == |children|
    ensures forall j :: 0 <= j < |children| ==> r[j] as int < |keys| && keys[r[j]] == children[j]
  {
    seq(|children|, j requires 0 <= j < |children| => IndexIn(keys, children[j]) as u32)
  }

  /** `strip_prefix`: what follows the prefix, when the string starts with it. */
  function StripPrefix(s: bytes, prefix: bytes): (r: Option<bytes>)
    ensures r.Some? <==> |prefix| <= |s| && s[..|prefix|] == prefix
    ensures r.Some? ==> prefix + r.value == s
  {
    if |prefix| <= |s| && s[..|prefix|] == prefix then Some(s[|prefix|..]) else None
  }

  /**
   * An item's parent, when it has one, is the item of a container that lists the item's key,
   * and that container's key is a proper prefix of the item's key.
   */
  predicate ParentOk(m: Items, keys: seq<bytes>, key: bytes, parent: Option<u32>)
  {
    match parent
    case None => true
    case Some(j) =>
      j < |keys| && keys[j] in m && m[keys[j]].Container? && key in m[keys[j]].children
      && |keys[j]| < |key| && key[..|keys[j]|] == keys[j]
  }

  /** The key segment stored for an item: its key after its parent's, or the whole key for a root. */
  function StoredKey(keys: seq<bytes>, key: bytes, parent: Option<u32>): bytes
    requires parent.Some? ==> parent.value < |keys| && |keys[parent.value]| <= |key|
  {
    if parent.None? then key else key[|keys[parent.value]|..]
  }

  /**
   * One written item: its stored key segment (never empty) and its value are chunks after
   * the table's, the key chunk holds the segment and the value chunk the written value.
   */
  ghost predicate ItemWritten(cs: seq<Chunk>, ti: nat, m: Items, keys: seq<bytes>, w: Written)
    decreases w, 0
  {
    w.key in m && ti < w.keyChunk < |cs| && ti < w.valueChunk < |cs|
    && cs[w.keyChunk].pointer == w.keyPtr && cs[w.valueChunk].pointer == w.valuePtr
    && ParentOk(m, keys, w.key, w.parent) && cs[w.keyChunk].data == StoredKey(keys, w.key, w.parent)
    && StoredKey(keys, w.key, w.parent) != []
    && ValueWritten(cs, w.valueChunk, m[w.key], keys, w.sub)
  }

  /**
   * A written value: chunk vi holds the value's bytes at a start aligned to 8, the indices of a container's children
   * among the table's keys, or the nested table.
   */
  ghost predicate ValueWritten(cs: seq<Chunk>, vi: nat, v: HashValue, keys: seq<bytes>, sub: TableInfo)
    decreases sub, 3
  {
    vi < |cs|
    && match v
       case Value(d) => cs[vi].data == d && cs[vi].pointer.start % 8 == 0
       case Container(children) =>
         |keys| <= U32_LIMIT && (forall c :: c in children ==> c in keys)
         && cs[vi].data == Words(ChildIndices(keys, children))
       case TableBuilder(items, _) => TableWritten(cs, vi, items, sub)
  }

  /**
   * A written table: chunk `ti`, aligned to 4, holds the header, one bucket word per key and
   * one record per key. The items are the map's keys, each once, ordered by bucket: bucket
   * word b counts the items of the buckets before b. Each item is written as ItemWritten says.
   */
  ghost predicate TableWritten(cs: seq<Chunk>, ti: nat, m: Items, info: TableInfo)
    decreases info, 2
  {
    var ws := info.items;
    ti < |cs| && |m| < U32_LIMIT && |ws| == |m| && |info.words| == |m|
    && cs[ti].pointer.start % 4 == 0
    && KeysOnce(ws, m) && BucketWords(info.words, ws)
    && cs[ti].data == TableLayout(|m| as u32, info.words, RecordsOf(m, ws), |m|)
    && ItemsWritten(cs, ti, m, KeysOf(ws), ws)
  }

  /** The items are keys of the map, each once. */
  predicate KeysOnce(ws: seq<Written>, m: Items)
  {
    (forall i :: 0 <= i < |ws| ==> ws[i].key in m)
    && (forall i, j :: 0 <= i < j < |ws| ==> ws[i].key != ws[j].key)
  }

  /** Bucket word b counts the items before it, which are those of the buckets below b. */
  predicate BucketWords(words: seq<u32>, ws: seq<Written>)
    requires |words| == |ws|
  {
    (forall b :: 0 <= b < |ws| ==> words[b] as int <= |ws|)
    && (forall b, i :: 0 <= b < |ws| && 0 <= i < |ws| ==>
          (i < words[b] as int <==> BucketOf(DjbHash(ws[i].key), |ws|) < b))
  }

  /** Every item is written as ItemWritten says. */
  ghost predicate ItemsWritten(cs: seq<Chunk>, ti: nat, m: Items, keys: seq<bytes>, ws: seq<Written>)
    decreases ws, 1
  {
    forall i :: 0 <= i < |ws| ==> ItemWritten(cs, ti, m, keys, ws[i])
  }

  /** One more written item. */
  lemma ItemsWrittenSnoc(cs: seq<Chunk>, ti: nat, m: Items, keys: seq<bytes>, ws: seq<Written>, w: Written)
    requires ItemsWritten(cs, ti, m, keys, ws) && ItemWritten(cs, ti, m, keys, w)
    ensures ItemsWritten(cs, ti, m, keys, ws + [w])
  {
    forall i | 0 <= i < |ws| + 1 ensures ItemWritten(cs, ti, m, keys, (ws + [w])[i]) {
      if i < |ws| {
        assert (ws + [w])[i] == ws[i];
      }
    }
  }

  /** A written table stays written when chunks from the table's on keep their contents. */
  lemma {:induction false} TableWrittenFrame(cs: seq<Chunk>, cs': seq<Chunk>, ti: nat, m: Items, info: TableInfo)
    requires TableWritten(cs, ti, m, info)
    requires |cs| <= |cs'| && forall k :: ti <= k < |cs| ==> cs'[k] == cs[k]
    ensures TableWritten(cs', ti, m, info)
    decreases info, 2
  {
    ItemsWrittenFrame(cs, cs', ti, m, KeysOf(info.items), info.items);
  }

  lemma {:induction false} ItemsWrittenFrame(cs: seq<Chunk>, cs': seq<Chunk>, ti: nat, m: Items,
                                             keys: seq<bytes>, ws: seq<Written>)
    requires ItemsWritten(cs, ti, m, keys, ws)
    requires |cs| <= |cs'| && forall k :: ti < k < |cs| ==> cs'[k] == cs[k]
    ensures ItemsWritten(cs', ti, m, keys, ws)
    decreases ws, 1
  {
    forall i | 0 <= i < |ws| ensures ItemWritten(cs', ti, m, keys, ws[i]) {
      ItemWrittenFrame(cs, cs', ti, m, keys, ws[i]);
    }
  }

  lemma {:induction false} ItemWrittenFrame(cs: seq<Chunk>, cs': seq<Chunk>, ti: nat, m: Items,
                                            keys: seq<bytes>, w: Written)
    requires ItemWritten(cs, ti, m, keys, w)
    requires |cs| <= |cs'| && forall k :: ti < k < |cs| ==> cs'[k] == cs[k]
    ensures ItemWritten(cs', ti, m, keys, w)
    decreases w, 0
  {
    ValueWrittenFrame(cs, cs', w.valueChunk, m[w.key], keys, w.sub);
  }

  lemma {:induction false} ValueWrittenFrame(cs: seq<Chunk>, cs': seq<Chunk>, vi: nat, v: HashValue,
                                             keys: seq<bytes>, sub: TableInfo)
    requires ValueWritten(cs, vi, v, keys, sub)
    requires |cs| <= |cs'| && forall k :: vi <= k < |cs| ==> cs'[k] == cs[k]
    ensures ValueWritten(cs', vi, v, keys, sub)
    decreases sub, 3
  {
    if v.TableBuilder? {
      TableWrittenFrame(cs, cs', vi, v.items, sub);
    }
  }

  /** Every table in the value has fewer than 2^32 keys. */
  ghost predicate Fits(v: HashValue)
    decreases v
  {
    v.TableBuilder? ==> |v.items| < U32_LIMIT && forall k :: k in v.items ==> Fits(v.items[k])
  }

  /** What the writer accepts: the keys of the table and of every nested table are writable. */
  ghost predicate Writable(v: HashValue)
    decreases v
  {
    v.TableBuilder? ==> KeysWritable(v.items) && forall k :: k in v.items ==> Writable(v.items[k])
  }

  /**
   * The keys of one table the writer accepts: none is empty, and every child a container
   * lists is a key that starts with the container's key and is longer.
   */
  ghost predicate KeysWritable(m: Items)
  {
    [] !in m
    && forall k, c :: k in m && m[k].Container? && c in m[k].children ==> c in m && |k| < |c| && c[..|k|] == k
  }

  /** A writable table's values are writable, and its containers list keys of the table. */
  lemma WritableItem(v: HashValue, k: bytes)
    requires Writable(v) && v.TableBuilder? && k in v.items
    ensures Writable(v.items[k])
    ensures v.items[k].Container? ==> forall c :: c in v.items[k].children ==> c in v.items
  {
  }

  /** The values of a table that fits fit. */
  lemma FitsItem(v: HashValue, k: bytes)
    requires Fits(v) && v.TableBuilder? && k in v.items
    ensures |v.items| < U32_LIMIT && Fits(v.items[k])
  {
  }

  /** An item whose parts are in place is written. */
  lemma ItemWrittenIntro(cs: seq<Chunk>, ti: nat, m: Items, keys: seq<bytes>, w: Written)
    requires w.key in m && ti < w.keyChunk < |cs| && ti < w.valueChunk < |cs|
    requires cs[w.keyChunk].pointer == w.keyPtr && cs[w.valueChunk].pointer == w.valuePtr
    requires ParentOk(m, keys, w.key, w.parent) && cs[w.keyChunk].data == StoredKey(keys, w.key, w.parent) != []
    requires ValueWritten(cs, w.valueChunk, m[w.key], keys, w.sub)
    ensures ItemWritten(cs, ti, m, keys, w)
  {
  }
}
