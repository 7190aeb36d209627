/**
 * What the reader makes of what the writer wrote: a file serialized by `FileWriter` with a
 * table as its root opens with `File::from_bytes`, its root opens with `for_bytes`, every key
 * of the table is found by `get_hash_item` as an item of its value's type, no other key is
 * found, and `get_names` returns the table's keys in item order.
 *
 * The proof goes through the reader's view of one written table (`Shows`): what `for_bytes`,
 * `get_hash`, `get_hash_item_for_index` and `get_key` return on the written bytes.
 */
module WriteRead {
  import opened GvdbUtil
  import opened Wrappers
  import opened Utf8
  import ReadPointer
  import ReadHashItem
  import ReadHeader
  import ReadFile
  import ReadHash
  import Endian
  import opened WriteItem
  import opened WriteLayout
  import WriteFile
  import WriteIndexing
  import WriteBuilder
  import WriteError

  type HashTable = ReadHash.HashTable

  // ---------------------------------------------------------------------------------------
  // get_names succeeds when parents are in range, ranked below their children

  /**
   * Every item's key reads, and its parent is the root marker or an item whose rank is lower
   * than the item's own: the parent chains have no cycle and no dangling index.
   */
  predicate Ranked(t: HashTable, rank: seq<nat>)
    requires ReadHash.Valid(t)
  {
    |rank| == ReadHash.NHashItems(t)
    && forall i :: 0 <= i < |rank| ==>
         ReadHash.GetKey(t, ReadHash.ItemAt(t, i)).Ok?
         && (ReadHash.ItemAt(t, i).parent == U32_MAX
             || (ReadHash.ItemAt(t, i).parent < |rank| && rank[ReadHash.ItemAt(t, i).parent] < rank[i]))
  }

  /**
   * A pass over ranked items never fails, and it names at least one more item when one from
   * `index` on can be named.
   */
  lemma {:induction false} PassSucceeds(t: HashTable, rank: seq<nat>, names: seq<Option<bytes>>, inserted: nat, index: nat)
    requires ReadHash.Valid(t) && Ranked(t, rank)
    requires |names| == ReadHash.NHashItems(t) && index <= |names| && inserted == ReadHash.CountSome(names)
    ensures ReadHash.NamesPass(t, names, inserted, index).Ok?
    ensures (exists j :: index <= j < |names| && ReadHash.Resolvable(t, names, j))
            ==> ReadHash.NamesPass(t, names, inserted, index).value.1 > inserted
    decreases |names| - index
  {
    if index < |names| {
      if ReadHash.Resolvable(t, names, index) {
        var name := ReadHash.ResolvedName(t, names, index);
        ReadHash.CountSomeUpdate(names, index, name);
        PassResolves(t, rank, names, inserted, index);
        PassSucceeds(t, rank, names[index := Some(name)], inserted + 1, index + 1);
      } else {
        PassSkips(t, rank, names, inserted, index);
        PassSucceeds(t, rank, names, inserted, index + 1);
        if exists j :: index <= j < |names| && ReadHash.Resolvable(t, names, j) {
          var j :| index <= j < |names| && ReadHash.Resolvable(t, names, j);
          assert j != index;
        }
      }
    }
  }

  /** A pass at a resolvable ranked item names it and goes on. */
  lemma PassResolves(t: HashTable, rank: seq<nat>, names: seq<Option<bytes>>, inserted: nat, index: nat)
    requires ReadHash.Valid(t) && Ranked(t, rank)
    requires |names| == ReadHash.NHashItems(t) && index < |names| && inserted == ReadHash.CountSome(names)
    requires ReadHash.Resolvable(t, names, index)
    ensures ReadHash.GetKey(t, ReadHash.ItemAt(t, index)).Ok?
    ensures ReadHash.CountSome(names[index := Some(ReadHash.ResolvedName(t, names, index))]) == inserted + 1
    ensures ReadHash.NamesPass(t, names, inserted, index)
            == ReadHash.NamesPass(t, names[index := Some(ReadHash.ResolvedName(t, names, index))], inserted + 1, index + 1)
  {
    ReadHash.CountSomeUpdate(names, index, ReadHash.ResolvedName(t, names, index));
  }

  /** A pass at a ranked item it cannot resolve skips it. */
  lemma PassSkips(t: HashTable, rank: seq<nat>, names: seq<Option<bytes>>, inserted: nat, index: nat)
    requires ReadHash.Valid(t) && Ranked(t, rank)
    requires |names| == ReadHash.NHashItems(t) && index < |names| && inserted == ReadHash.CountSome(names)
    requires !ReadHash.Resolvable(t, names, index)
    ensures ReadHash.NamesPass(t, names, inserted, index) == ReadHash.NamesPass(t, names, inserted, index + 1)
  {
  }

  /** Below an unnamed item, following unnamed parents down the ranks, there is one a pass can name. */
  lemma {:induction false} Descend(t: HashTable, rank: seq<nat>, names: seq<Option<bytes>>, j: nat)
    requires ReadHash.Valid(t) && Ranked(t, rank) && |names| == |rank| && j < |names| && names[j].None?
    ensures exists i :: 0 <= i < |names| && ReadHash.Resolvable(t, names, i)
    decreases rank[j]
  {
    var p := ReadHash.ItemAt(t, j).parent;
    if p != U32_MAX && names[p].None? {
      Descend(t, rank, names, p as nat);
    } else {
      assert ReadHash.Resolvable(t, names, j);
    }
  }

  /** Fewer names than entries: one entry is unnamed. */
  lemma {:induction false} SomeUnnamed(names: seq<Option<bytes>>)
    requires ReadHash.CountSome(names) < |names|
    ensures exists j :: 0 <= j < |names| && names[j].None?
  {
    if names[0].Some? {
      SomeUnnamed(names[1..]);
      var j :| 0 <= j < |names[1..]| && names[1..][j].None?;
      assert names[j + 1].None?;
    }
  }

  /** The passes over ranked items end with every item named. */
  lemma {:induction false} LoopSucceeds(t: HashTable, rank: seq<nat>, names: seq<Option<bytes>>, inserted: nat)
    requires ReadHash.Valid(t) && Ranked(t, rank)
    requires |names| == ReadHash.NHashItems(t) && inserted == ReadHash.CountSome(names)
    ensures ReadHash.NamesLoop(t, names, inserted).Ok?
    decreases |names| - inserted
  {
    if inserted < |names| {
      SomeUnnamed(names);
      var j :| 0 <= j < |names| && names[j].None?;
      Descend(t, rank, names, j);
      PassSucceeds(t, rank, names, inserted, 0);
      var pass := ReadHash.NamesPass(t, names, inserted, 0).value;
      LoopSucceeds(t, rank, pass.0, pass.1);
    }
  }

  /** `get_names` succeeds on a table whose items are ranked. */
  lemma NamesSucceed(t: HashTable, rank: seq<nat>)
    requires ReadHash.Valid(t) && Ranked(t, rank)
    ensures ReadHash.Names(t).Ok?
  {
    var n := ReadHash.NHashItems(t);
    ReadHash.CountSomeNone(n);
    LoopSucceeds(t, rank, seq(n, _ => None), 0);
  }

  // ---------------------------------------------------------------------------------------
  // The reader's view of a written table

  /**
   * Item i as the reader sees it: the record written for the i-th item, whose hash is its
   * key's, whose type is its value's, whose parent is the index of the item of a container
   * holding a proper prefix of the key, and whose stored key reads as the rest of the key
   * (the whole key for a root item), never empty.
   */
  ghost predicate ItemShows(t: HashTable, m: Items, ws: seq<Written>, i: nat)
    requires ReadHash.Valid(t) && i < ReadHash.NHashItems(t) && i < |ws|
  {
    var item := ReadHash.ItemAt(t, i);
    var key := ws[i].key;
    key in m && ValidUtf8(key)
    && item.hashValue == DjbHash(key) && ReadHashItem.Typ(item) == Ok(Typ(m[key]))
    && item.value == ws[i].valuePtr
    && match ws[i].parent
       case None => item.parent == U32_MAX && key != [] && ReadHash.GetKey(t, item) == Ok(key)
       case Some(j) =>
         item.parent == j && j as nat < |ws| && |ws[j].key| < |key| && key[..|ws[j].key|] == ws[j].key
         && ReadHash.GetKey(t, item) == Ok(key[|ws[j].key|..])
  }

  /**
   * A table as the reader sees it after the writer put down the items `ws` with the bucket
   * words `words`: one bucket and one item per key, no bloom words, bucket word b where the
   * writer put it, and every item as ItemShows says.
   */
  ghost predicate Shows(t: HashTable, m: Items, ws: seq<Written>, words: seq<u32>)
  {
    ReadHash.Valid(t) && |ws| == |m| && |words| == |ws| && |ws| < U32_LIMIT
    && ReadHash.NHashItems(t) == |ws| && ReadHash.NBuckets(t.header) == |ws|
    && ReadHash.NBloomWords(t.header) == 0
    && KeysOnce(ws, m) && BucketWords(words, ws)
    && (forall b :: 0 <= b < |ws| ==> ReadHash.BucketStart(t, b) == words[b])
    && (forall i :: 0 <= i < |ws| ==> ItemShows(t, m, ws, i))
  }

  /**
   * The parent links of a shown table, without the rest: item i's parent is the item of a
   * shorter key that the item's key extends by the item's stored segment, and a root's
   * segment is its whole key, never empty.
   */
  ghost predicate Chained(t: HashTable, ws: seq<Written>)
    requires ReadHash.Valid(t)
  {
    |ws| == ReadHash.NHashItems(t) && forall i :: 0 <= i < |ws| ==> Linked(t, ws, i)
  }

  ghost predicate Linked(t: HashTable, ws: seq<Written>, i: nat)
    requires ReadHash.Valid(t) && i < ReadHash.NHashItems(t) && i < |ws|
  {
    var item := ReadHash.ItemAt(t, i);
    match ws[i].parent
    case None => item.parent == U32_MAX && ReadHash.GetKey(t, item) == Ok(ws[i].key) && ws[i].key != []
    case Some(j) =>
      item.parent == j && j as nat < |ws| && |ws[j].key| < |ws[i].key|
      && ReadHash.GetKey(t, item) == Ok(ws[i].key[|ws[j].key|..])
      && ws[i].key == ws[j].key + ws[i].key[|ws[j].key|..]
  }

  /** A shown table is chained. */
  lemma ShownChained(t: HashTable, m: Items, ws: seq<Written>, words: seq<u32>)
    requires Shows(t, m, ws, words)
    ensures Chained(t, ws)
  {
    forall i | 0 <= i < |ws|
      ensures Linked(t, ws, i)
    {
      assert ItemShows(t, m, ws, i);
      if ws[i].parent.Some? {
        var j := ws[i].parent.value;
        assert ws[i].key == ws[i].key[..|ws[j].key|] + ws[i].key[|ws[j].key|..];
      }
    }
  }

  /** The items of a chained table are named by their keys, down the parent chain to a root. */
  lemma {:induction false} NamedItem(t: HashTable, ws: seq<Written>, i: nat) returns (d: nat)
    requires ReadHash.Valid(t) && Chained(t, ws) && i < |ws|
    ensures ReadHash.NamedAs(t, ReadHash.ItemAt(t, i), ws[i].key, d)
    ensures ReadHash.SegmentsNonEmpty(t, ReadHash.ItemAt(t, i), d)
    decreases |ws[i].key|
  {
    match ws[i].parent
    case None =>
      d := 0;
      LinkedRoot(t, ws, i);
    case Some(j) =>
      var dp := NamedItem(t, ws, j as nat);
      d := dp + 1;
      LinkedChild(t, ws, i, j as nat, dp);
  }

  /** A linked root is named by its key. */
  lemma LinkedRoot(t: HashTable, ws: seq<Written>, i: nat)
    requires ReadHash.Valid(t) && i < ReadHash.NHashItems(t) && i < |ws|
    requires Linked(t, ws, i) && ws[i].parent.None?
    ensures ReadHash.NamedAs(t, ReadHash.ItemAt(t, i), ws[i].key, 0)
    ensures ReadHash.SegmentsNonEmpty(t, ReadHash.ItemAt(t, i), 0)
  {
    RootNamed(t, ReadHash.ItemAt(t, i), ws[i].key);
  }

  /** A linked child whose parent is named by the parent's key is named by its own key. */
  lemma LinkedChild(t: HashTable, ws: seq<Written>, i: nat, j: nat, dp: nat)
    requires ReadHash.Valid(t) && i < ReadHash.NHashItems(t) && i < |ws| && j < ReadHash.NHashItems(t)
    requires Linked(t, ws, i) && ws[i].parent == Some(j as u32)
    requires ReadHash.NamedAs(t, ReadHash.ItemAt(t, j), ws[j].key, dp)
    requires ReadHash.SegmentsNonEmpty(t, ReadHash.ItemAt(t, j), dp)
    ensures ReadHash.NamedAs(t, ReadHash.ItemAt(t, i), ws[i].key, dp + 1)
    ensures ReadHash.SegmentsNonEmpty(t, ReadHash.ItemAt(t, i), dp + 1)
  {
    NamedCons(t, ReadHash.ItemAt(t, i), ws[j].key, ws[i].key[|ws[j].key|..], dp);
  }

  /** A root item whose segment is its whole non-empty key is named by it. */
  lemma RootNamed(t: HashTable, item: ReadHashItem.HashItem, key: bytes)
    requires ReadHash.Valid(t) && item.parent == U32_MAX && ReadHash.GetKey(t, item) == Ok(key) && key != []
    ensures ReadHash.NamedAs(t, item, key, 0) && ReadHash.SegmentsNonEmpty(t, item, 0)
  {
    assert key[|key| - |key|..] == key;
  }

  /** An item below a named parent, with a non-empty segment, is named by the parent's name and the segment. */
  lemma NamedCons(t: HashTable, item: ReadHashItem.HashItem, front: bytes, seg: bytes, dp: nat)
    requires ReadHash.Valid(t) && item.parent != U32_MAX && item.parent < ReadHash.NHashItems(t)
    requires ReadHash.GetKey(t, item) == Ok(seg) && seg != []
    requires ReadHash.NamedAs(t, ReadHash.ItemAt(t, item.parent), front, dp)
    requires ReadHash.SegmentsNonEmpty(t, ReadHash.ItemAt(t, item.parent), dp)
    ensures ReadHash.NamedAs(t, item, front + seg, dp + 1)
    ensures ReadHash.SegmentsNonEmpty(t, item, dp + 1)
  {
    var key := front + seg;
    assert key[|key| - |seg|..] == seg;
    assert key[..|key| - |seg|] == front;
  }

  /** The only name an item of a chained table has is its key. */
  lemma {:induction false} NamedKey(t: HashTable, ws: seq<Written>, i: nat, key: bytes, d: nat)
    requires ReadHash.Valid(t) && Chained(t, ws) && i < |ws|
    requires ReadHash.NamedAs(t, ReadHash.ItemAt(t, i), key, d)
    ensures key == ws[i].key
    decreases d
  {
    assert Linked(t, ws, i);
    var item := ReadHash.ItemAt(t, i);
    var seg := ReadHash.GetKey(t, item).value;
    match ws[i].parent
    case None =>
    case Some(j) =>
      ReadHash.NamedAsStep(t, item, key, d);
      var front := key[..|key| - |seg|];
      NamedKey(t, ws, j as nat, front, d - 1);
      ReadHash.EndsWithSplit(key, seg);
  }

  /** An item of a shown table that `get_hash_item` stops at for a key is the key's item. */
  lemma MatchIsKey(t: HashTable, m: Items, ws: seq<Written>, words: seq<u32>, key: bytes, j: nat)
    requires Shows(t, m, ws, words) && ValidUtf8(key) && j < |ws|
    requires ReadHash.CheckNameTop(t, ReadHash.ItemAt(t, j), key)
    ensures key == ws[j].key
  {
    ReadHash.CheckNameSound(t, ReadHash.ItemAt(t, j), key, ReadHash.NHashItems(t));
    var d :| ReadHash.NamedAs(t, ReadHash.ItemAt(t, j), key, d);
    ShownChained(t, m, ws, words);
    NamedKey(t, ws, j, key, d);
  }

  /** Item i of a shown table lies in its key's bucket range. */
  lemma InBucketRange(t: HashTable, m: Items, ws: seq<Written>, words: seq<u32>, i: nat)
    requires Shows(t, m, ws, words) && i < |ws|
    ensures var range := ReadHash.BucketRange(t, DjbHash(ws[i].key));
      range.0 <= i < range.1
  {
    var n := |ws|;
    var b := BucketOf(DjbHash(ws[i].key), n);
    assert ReadHash.BucketStart(t, b) == words[b];
    assert !(i < words[b] as int);
    if b < n - 1 {
      assert ReadHash.BucketStart(t, b + 1) == words[b + 1];
      assert i < words[b + 1] as int;
    }
  }

  /** `get_hash_item` finds each key of a shown table at its item. */
  lemma FindsItem(t: HashTable, m: Items, ws: seq<Written>, words: seq<u32>, i: nat)
    requires Shows(t, m, ws, words) && i < |ws|
    ensures ValidUtf8(ws[i].key) && ReadHash.Lookup(t, ws[i].key) == Ok(ReadHash.ItemAt(t, i))
  {
    assert ItemShows(t, m, ws, i);
    var key := ws[i].key;
    var h := DjbHash(key);
    ShownChained(t, m, ws, words);
    var d := NamedItem(t, ws, i);
    ReadHash.CheckNameComplete(t, ReadHash.ItemAt(t, i), key, d, ReadHash.NHashItems(t));
    InBucketRange(t, m, ws, words, i);
    var range := ReadHash.BucketRange(t, h);
    forall j | range.0 <= j < i
      ensures !ReadHash.Matches(t, key, h, j)
    {
      if ReadHash.Matches(t, key, h, j) {
        MatchIsKey(t, m, ws, words, key, j);
      }
    }
    ReadHash.LookupFinds(t, key, i);
  }

  /** What `get_hash_item` finds in a shown table is the item of a key of the table. */
  lemma FindsOnlyKeys(t: HashTable, m: Items, ws: seq<Written>, words: seq<u32>, key: bytes)
    requires Shows(t, m, ws, words) && ValidUtf8(key) && ReadHash.Lookup(t, key).Ok?
    ensures exists i :: 0 <= i < |ws| && ws[i].key == key && ReadHash.Lookup(t, key).value == ReadHash.ItemAt(t, i)
  {
    ReadHash.LookupSound(t, key);
    var i :| ReadHash.BucketRange(t, DjbHash(key)).0 <= i < ReadHash.BucketRange(t, DjbHash(key)).1
             && ReadHash.ItemAt(t, i) == ReadHash.Lookup(t, key).value;
    MatchIsKey(t, m, ws, words, key, i);
  }

  /** The items of a shown table are ranked by the lengths of their keys. */
  lemma ShownRanked(t: HashTable, m: Items, ws: seq<Written>, words: seq<u32>)
    requires Shows(t, m, ws, words)
    ensures Ranked(t, KeyLengths(ws))
  {
    var rank := KeyLengths(ws);
    forall i | 0 <= i < |ws|
      ensures ReadHash.GetKey(t, ReadHash.ItemAt(t, i)).Ok?
      ensures ReadHash.ItemAt(t, i).parent == U32_MAX
              || (ReadHash.ItemAt(t, i).parent < |rank| && rank[ReadHash.ItemAt(t, i).parent] < rank[i])
    {
      assert ItemShows(t, m, ws, i);
    }
  }

  function KeyLengths(ws: seq<Written>): (r: seq<nat>)
    ensures |r| == |ws| && forall i :: 0 <= i < |ws| ==> r[i] == |ws[i].key|
  {
    seq(|ws|, i requires 0 <= i < |ws| => |ws[i].key|)
  }

  /** The name `get_names` gives an item of a chained table is its key. */
  lemma {:induction false} NameIsKey(t: HashTable, ws: seq<Written>, i: nat)
    requires ReadHash.Valid(t) && Chained(t, ws) && i < |ws| && ReadHash.Names(t).Ok?
    ensures |ReadHash.Names(t).value| == |ws| && ReadHash.Names(t).value[i] == ws[i].key
    decreases |ws[i].key|
  {
    ReadHash.NamesSpec(t);
    assert Linked(t, ws, i);
    match ws[i].parent
    case None =>
    case Some(j) =>
      NameIsKey(t, ws, j as nat);
  }

  /** `get_names` on a shown table returns the keys in item order. */
  lemma NamesAreKeys(t: HashTable, m: Items, ws: seq<Written>, words: seq<u32>)
    requires Shows(t, m, ws, words)
    ensures ReadHash.Names(t) == Ok(KeysOf(ws))
  {
    ShownRanked(t, m, ws, words);
    NamesSucceed(t, KeyLengths(ws));
    ShownChained(t, m, ws, words);
    forall i | 0 <= i < |ws|
      ensures ReadHash.Names(t).value[i] == ws[i].key
    {
      NameIsKey(t, ws, i);
    }
    ReadHash.NamesSpec(t);
    assert ReadHash.Names(t).value == KeysOf(ws);
  }

  // ---------------------------------------------------------------------------------------
  // The written bytes show the table

  /**
   * The keys the writer is given: `String`s, so well-formed UTF-8, and shorter than the
   * 64 KiB a record's 16-bit key size can hold.
   */
  predicate KeysReadable(m: Items)
  {
    forall k :: k in m ==> ValidUtf8(k) && |k| < 0x1_0000
  }

  /** A chunk of a file below 4 GiB dereferences to its own bytes, at any alignment its start has. */
  lemma ChunkReads(cs: seq<Chunk>, starts: seq<nat>, offset: nat, file: ReadFile.File, j: nat, a: nat)
    requires Laid(cs, starts, offset) && offset < U32_LIMIT && Holds(file.data, cs, starts)
    requires j < |cs| && IsPowerOfTwo(a) && cs[j].pointer.start % a == 0
    ensures cs[j].pointer == ReadPointer.Pointer(starts[j], starts[j] + |cs[j].data|)
    ensures ReadFile.Dereference(file, cs[j].pointer, a) == Ok(cs[j].data)
  {
  }

  /** A table chunk with every bucket word and record in place: header, words, records. */
  lemma FullLayout(nb: u32, words: seq<u32>, recs: seq<ReadHashItem.HashItem>)
    requires |words| == nb as nat && |recs| == nb as nat
    ensures var l := TableLayout(nb, words, recs, nb as nat);
      l[..8] == ReadHash.EncodeHashHeader(TableHeader(nb))
      && l[8..8 + 4 * nb] == Words(words) && l[8 + 4 * nb..] == Records(recs)
  {
    var h := ReadHash.EncodeHashHeader(TableHeader(nb));
    assert TableLayout(nb, words, recs, nb as nat) == h + Words(words) + Records(recs);
  }

  /** The header the writer puts down announces no bloom words and nb buckets. */
  lemma TableHeaderCounts(nb: u32)
    ensures ReadHash.NBloomWords(TableHeader(nb)) == 0 && ReadHash.NBuckets(TableHeader(nb)) == nb as nat
    ensures ReadHash.BucketsOffset(TableHeader(nb)) == 8
    ensures ReadHash.ItemsOffset(TableHeader(nb)) == 8 + 4 * nb as nat
  {
  }

  /** The bucket words and the records of a full layout, where the reader looks for them. */
  lemma LayoutParts(t: HashTable, words: seq<u32>, recs: seq<ReadHashItem.HashItem>)
    requires ReadHash.Valid(t) && |words| == |recs| < U32_LIMIT
    requires t.header == TableHeader(|words| as u32)
    requires ReadHash.TableData(t) == TableLayout(|words| as u32, words, recs, |words|)
    ensures ReadHash.TableData(t)[8..8 + 4 * |words|] == Words(words)
    ensures ReadHash.TableData(t)[ReadHash.ItemsOffset(t.header)..] == Records(recs)
  {
    FullLayout(|words| as u32, words, recs);
    TableHeaderCounts(|words| as u32);
  }

  /** Bucket word b of the table's bytes is the writer's word b. */
  lemma WordShows(t: HashTable, words: seq<u32>, recs: seq<ReadHashItem.HashItem>, b: nat)
    requires ReadHash.Valid(t) && |words| == |recs| < U32_LIMIT && b < |words|
    requires t.header == TableHeader(|words| as u32)
    requires ReadHash.TableData(t) == TableLayout(|words| as u32, words, recs, |words|)
    ensures ReadHash.BucketStart(t, b) == words[b]
  {
    var l := ReadHash.TableData(t);
    LayoutParts(t, words, recs);
    TableHeaderCounts(|words| as u32);
    WordsAt(words, b);
    WordAt(l, Words(words), 4 * b, LeBytes32(words[b]));
    var v := ReadHash.BucketStart(t, b);
    assert LeBytes32(v) == l[8 + 4 * b..8 + 4 * b + 4];
    LeBytes32RoundTrip(v);
    LeBytes32RoundTrip(words[b]);
  }

  /** Four bytes at c of a slice starting at byte 8 are the four bytes at 8 + c of the whole. */
  lemma WordAt(l: bytes, ws: bytes, c: nat, x: bytes)
    requires 8 + |ws| <= |l| && l[8..8 + |ws|] == ws && c + 4 <= |ws| && ws[c..c + 4] == x
    ensures l[8 + c..8 + c + 4] == x
  {
    SliceOfSlice(l, 8, |ws|, c, c + 4);
  }

  /** A slice of a slice is a slice of the whole. */
  lemma SliceOfSlice(l: bytes, a: nat, n: nat, i: nat, j: nat)
    requires a + n <= |l| && i <= j <= n
    ensures l[a + i..a + j] == l[a..a + n][i..j]
  {
    var x, y := l[a + i..a + j], l[a..a + n][i..j];
    forall k | 0 <= k < |x|
      ensures x[k] == y[k]
    {
      assert y[k] == l[a..a + n][i + k];
    }
  }

  /** Item i of the table's bytes is the writer's record i. */
  lemma RecordShows(t: HashTable, words: seq<u32>, recs: seq<ReadHashItem.HashItem>, i: nat)
    requires ReadHash.Valid(t) && |words| == |recs| < U32_LIMIT && i < |recs|
    requires t.header == TableHeader(|words| as u32)
    requires ReadHash.TableData(t) == TableLayout(|words| as u32, words, recs, |words|)
    ensures i < ReadHash.NHashItems(t) && ReadHash.ItemAt(t, i) == recs[i]
  {
    LayoutParts(t, words, recs);
    assert ReadHash.Items(t) == ReadHash.DecodeItems(Records(recs));
    RecordDecodes(recs, i);
  }

  /** Record i decodes from the records' bytes. */
  lemma RecordDecodes(recs: seq<ReadHashItem.HashItem>, i: nat)
    requires i < |recs|
    ensures i < |ReadHash.DecodeItems(Records(recs))| && ReadHash.DecodeItems(Records(recs))[i] == recs[i]
  {
    ReadHash.DecodeItemsIndex(Records(recs), i);
    RecordsAt(recs, i);
    ReadHashItem.DecodeEncode(recs[i]);
  }

  /** The parts of a written item that its record and stored key are made of. */
  lemma ItemKeyChunk(cs: seq<Chunk>, ti: nat, m: Items, keys: seq<bytes>, w: Written)
    requires ItemWritten(cs, ti, m, keys, w)
    ensures w.key in m && w.keyChunk < |cs| && cs[w.keyChunk].pointer == w.keyPtr
    ensures ParentOk(m, keys, w.key, w.parent)
    ensures cs[w.keyChunk].data == StoredKey(keys, w.key, w.parent) != []
  {
  }

  /** The stored key segment of a readable key is well-formed UTF-8 and no longer than the key. */
  lemma SegmentValid(m: Items, keys: seq<bytes>, key: bytes, parent: Option<u32>)
    requires KeysReadable(m) && key in m && ParentOk(m, keys, key, parent)
    ensures ValidUtf8(StoredKey(keys, key, parent)) && |StoredKey(keys, key, parent)| <= |key|
  {
    if parent.Some? {
      var kp := keys[parent.value];
      assert kp + StoredKey(keys, key, parent) == key;
      SuffixValid(kp, StoredKey(keys, key, parent));
    }
  }

  /** A record whose key range dereferences to well-formed UTF-8 has that key. */
  lemma KeyShows(t: HashTable, item: ReadHashItem.HashItem, keyPtr: ReadPointer.Pointer, seg: bytes)
    requires ReadHashItem.KeyPtr(item) == keyPtr && ReadFile.Dereference(t.file, keyPtr, 1) == Ok(seg)
    requires ValidUtf8(seg)
    ensures ReadHash.GetKey(t, item) == Ok(seg)
  {
  }

  /** A written item's record, read back from a file below 4 GiB, shows the item. */
  lemma ItemShowsIntro(cs: seq<Chunk>, starts: seq<nat>, offset: nat, t: HashTable, ti: nat, m: Items,
                       ws: seq<Written>, i: nat)
    requires Laid(cs, starts, offset) && offset < U32_LIMIT && Holds(t.file.data, cs, starts)
    requires ReadHash.Valid(t) && ReadHash.NHashItems(t) == |ws| && i < |ws| && |ws| < U32_LIMIT
    requires KeysReadable(m) && ItemsWritten(cs, ti, m, KeysOf(ws), ws) && ws[i].key in m
    requires ReadHash.ItemAt(t, i) == RecordOf(m, ws[i])
    ensures ItemShows(t, m, ws, i)
  {
    var w := ws[i];
    var keys := KeysOf(ws);
    ItemKeyChunk(cs, ti, m, keys, w);
    var seg := StoredKey(keys, w.key, w.parent);
    SegmentValid(m, keys, w.key, w.parent);
    ChunkReads(cs, starts, offset, t.file, w.keyChunk, 1);
    ReadHashItem.KeyPtrOfNew(DjbHash(w.key), ParentWord(w.parent), w.keyPtr, Typ(m[w.key]), w.valuePtr);
    KeyShows(t, ReadHash.ItemAt(t, i), w.keyPtr, seg);
  }

  /** A whole number of records. */
  lemma RecordCount(n: nat)
    ensures (24 * n) % 24 == 0 && (24 * n) / 24 == n
  {
  }

  /** A range holding a full table layout opens with `for_bytes`. */
  lemma TableOpens(p: ReadPointer.Pointer, file: ReadFile.File, l: bytes, nb: u32, words: seq<u32>,
                   recs: seq<ReadHashItem.HashItem>)
    requires |words| == nb as nat && |recs| == nb as nat
    requires ReadFile.Dereference(file, p, 4) == Ok(l) && l == TableLayout(nb, words, recs, nb as nat)
    ensures ReadHash.ForBytes(p, file).Ok?
    ensures var t := ReadHash.ForBytes(p, file).value;
      t.file == file && t.header == TableHeader(nb)
      && ReadHash.TableData(t) == l && ReadHash.NHashItems(t) == nb as nat
  {
    FullLayout(nb, words, recs);
    ReadHash.HashHeaderRoundTrip(TableHeader(nb));
    assert ReadHash.ItemsOffset(TableHeader(nb)) == 8 + 4 * nb as nat;
    assert |l| - ReadHash.ItemsOffset(TableHeader(nb)) == 24 * nb as nat;
    RecordCount(nb as nat);
    ReadHash.ForBytesSpec(p, file);
  }

  /**
   * A table the writer put into chunk ti of a file below 4 GiB opens with `for_bytes` at
   * the chunk's pointer, and the reader sees it as written.
   */
  lemma WrittenShows(cs: seq<Chunk>, starts: seq<nat>, offset: nat, file: ReadFile.File, ti: nat, m: Items,
                     info: TableInfo)
    requires Laid(cs, starts, offset) && offset < U32_LIMIT && Holds(file.data, cs, starts)
    requires TableWritten(cs, ti, m, info) && KeysReadable(m)
    ensures ReadHash.ForBytes(cs[ti].pointer, file).Ok?
    ensures Shows(ReadHash.ForBytes(cs[ti].pointer, file).value, m, info.items, info.words)
  {
    var ws := info.items;
    var recs := RecordsOf(m, ws);
    assert IsPowerOfTwo(2);
    ChunkReads(cs, starts, offset, file, ti, 4);
    TableOpens(cs[ti].pointer, file, cs[ti].data, |m| as u32, info.words, recs);
    var t := ReadHash.ForBytes(cs[ti].pointer, file).value;
    forall b | 0 <= b < |ws|
      ensures ReadHash.BucketStart(t, b) == info.words[b]
    {
      WordShows(t, info.words, recs, b);
    }
    forall i | 0 <= i < |ws|
      ensures ItemShows(t, m, ws, i)
    {
      RecordShows(t, info.words, recs, i);
      ItemShowsIntro(cs, starts, offset, t, ti, m, ws, i);
    }
  }

  // ---------------------------------------------------------------------------------------
  // What a reader gets from a shown table

  /** A sequence that repeats no element has as many elements as it is long. */
  lemma {:induction false} DistinctSetSize(s: seq<bytes>)
    requires WriteIndexing.Distinct(s)
    ensures |WriteIndexing.SetOf(s)| == |s|
    decreases |s|
  {
    if s != [] {
      var n := |s| - 1;
      DistinctSetSize(s[..n]);
      assert s[n] !in WriteIndexing.SetOf(s[..n]);
      assert WriteIndexing.SetOf(s) == WriteIndexing.SetOf(s[..n]) + {s[n]};
    }
  }

  /** The items of a shown table carry every key of its map. */
  lemma ShownKeys(t: HashTable, m: Items, ws: seq<Written>, words: seq<u32>)
    requires Shows(t, m, ws, words)
    ensures WriteIndexing.SetOf(KeysOf(ws)) == m.Keys
  {
    var keys := KeysOf(ws);
    var s := WriteIndexing.SetOf(keys);
    DistinctSetSize(keys);
    assert s <= m.Keys;
    assert m.Keys == s + (m.Keys - s);
  }

  /**
   * The reader on a shown table: `get_hash_item` finds every key of the map at its item and
   * finds no other key, and `get_names` returns the map's keys, each once, in item order.
   */
  lemma ShownReads(t: HashTable, m: Items, ws: seq<Written>, words: seq<u32>)
    requires Shows(t, m, ws, words)
    ensures forall i :: 0 <= i < |ws| ==>
              ValidUtf8(ws[i].key) && ReadHash.Lookup(t, ws[i].key) == Ok(ReadHash.ItemAt(t, i))
    ensures forall key :: ValidUtf8(key) ==> (ReadHash.Lookup(t, key).Ok? <==> key in m)
    ensures ReadHash.Names(t) == Ok(KeysOf(ws)) && WriteIndexing.SetOf(KeysOf(ws)) == m.Keys
    ensures WriteIndexing.Distinct(KeysOf(ws))
  {
    forall i | 0 <= i < |ws|
      ensures ValidUtf8(ws[i].key) && ReadHash.Lookup(t, ws[i].key) == Ok(ReadHash.ItemAt(t, i))
    {
      FindsItem(t, m, ws, words, i);
    }
    ShownKeys(t, m, ws, words);
    forall key | ValidUtf8(key)
      ensures ReadHash.Lookup(t, key).Ok? <==> key in m
    {
      if ReadHash.Lookup(t, key).Ok? {
        FindsOnlyKeys(t, m, ws, words, key);
      }
      if key in m {
        assert key in WriteIndexing.SetOf(KeysOf(ws));
        var i :| 0 <= i < |ws| && KeysOf(ws)[i] == key;
      }
    }
    NamesAreKeys(t, m, ws, words);
  }

  /**
   * A table as a reader opens it: shown as written, and each key's value read back by its
   * kind, recursively into nested tables.
   */
  ghost predicate Opens(t: HashTable, m: Items, info: TableInfo)
    decreases info, 1
  {
    Shows(t, m, info.items, info.words)
    && forall i :: 0 <= i < |info.items| ==>
         ValueOpens(t, info.items[i].key, m[info.items[i].key], info.items[i].sub)
  }

  /**
   * The value under a key as the reader returns it, for a key of well-formed UTF-8: `get_bytes` gives a value's bytes,
   * `get_hash_table` a nested table that opens with the nested map, and a container is an
   * item of type 'L' that neither of the two returns.
   */
  ghost predicate ValueOpens(t: HashTable, key: bytes, v: HashValue, sub: TableInfo)
    requires ReadHash.Valid(t)
    decreases sub, 2
  {
    ValidUtf8(key)
    && match v
    case Value(d) => ReadHash.GetBytes(t, key) == Ok(d)
    case TableBuilder(items, _) =>
      var nested := ReadHash.GetHashTable(t, key);
      nested.Ok? && Opens(nested.value, items, sub)
    case Container(_) =>
      ReadHash.Lookup(t, key).Ok? && ReadHashItem.Typ(ReadHash.Lookup(t, key).value) == Ok(ReadHashItem.Container)
  }

  /**
   * What the reader can take in: every key of the table and of its nested tables is a
   * `String` (well-formed UTF-8) shorter than 64 KiB.
   */
  ghost predicate Readable(v: HashValue)
    decreases v
  {
    v.TableBuilder? ==> KeysReadable(v.items) && forall k :: k in v.items ==> Readable(v.items[k])
  }

  /** What the writer put down for item i of a table and what the reader finds for its key. */
  lemma ItemFacts(cs: seq<Chunk>, t: HashTable, ti: nat, m: Items, info: TableInfo, i: nat)
    requires TableWritten(cs, ti, m, info) && Shows(t, m, info.items, info.words) && i < |info.items|
    ensures var w := info.items[i];
      w.key in m && ValidUtf8(w.key) && ReadHash.Lookup(t, w.key) == Ok(ReadHash.ItemAt(t, i))
      && ReadHash.ItemAt(t, i).value == w.valuePtr
      && ReadHashItem.Typ(ReadHash.ItemAt(t, i)) == Ok(Typ(m[w.key]))
      && w.valueChunk < |cs| && cs[w.valueChunk].pointer == w.valuePtr
      && ValueWritten(cs, w.valueChunk, m[w.key], KeysOf(info.items), w.sub)
  {
    assert ItemShows(t, m, info.items, i);
    assert ItemWritten(cs, ti, m, KeysOf(info.items), info.items[i]);
    FindsItem(t, m, info.items, info.words, i);
  }

  /** A value chunk, aligned to 8, is what `get_bytes` returns for the key of its item. */
  lemma BytesRead(cs: seq<Chunk>, starts: seq<nat>, offset: nat, t: HashTable, key: bytes, vc: nat, d: bytes)
    requires Laid(cs, starts, offset) && offset < U32_LIMIT && Holds(t.file.data, cs, starts)
    requires ReadHash.Valid(t) && ValidUtf8(key) && ReadHash.Lookup(t, key).Ok?
    requires ReadHashItem.Typ(ReadHash.Lookup(t, key).value) == Ok(ReadHashItem.Value)
    requires vc < |cs| && cs[vc].pointer == ReadHash.Lookup(t, key).value.value
    requires cs[vc].data == d && cs[vc].pointer.start % 8 == 0
    ensures ReadHash.GetBytes(t, key) == Ok(d)
  {
    assert IsPowerOfTwo(8) by { assert IsPowerOfTwo(2); assert IsPowerOfTwo(4); }
    ChunkReads(cs, starts, offset, t.file, vc, 8);
  }

  /** A value the writer put down for item i of a table opens under the item's key. */
  lemma {:induction false} WrittenValueOpens(cs: seq<Chunk>, starts: seq<nat>, offset: nat, t: HashTable,
                                             ti: nat, m: Items, info: TableInfo, i: nat)
    requires Laid(cs, starts, offset) && offset < U32_LIMIT && Holds(t.file.data, cs, starts)
    requires TableWritten(cs, ti, m, info) && Shows(t, m, info.items, info.words) && i < |info.items|
    requires Readable(TableBuilder(m, None))
    ensures ValidUtf8(info.items[i].key)
    ensures ValueOpens(t, info.items[i].key, m[info.items[i].key], info.items[i].sub)
    decreases info, 0
  {
    var w := info.items[i];
    ItemFacts(cs, t, ti, m, info, i);
    match m[w.key]
    case Value(d) =>
      BytesRead(cs, starts, offset, t, w.key, w.valueChunk, d);
    case TableBuilder(items, sep) =>
      assert Readable(TableBuilder(items, None)) by { assert Readable(m[w.key]); }
      WrittenOpens(cs, starts, offset, t.file, w.valueChunk, items, w.sub);
    case Container(_) =>
  }

  /**
   * A table the writer put into chunk ti of a file below 4 GiB opens with `for_bytes`, and
   * every key's value reads back as written, down through the nested tables.
   */
  lemma {:induction false} WrittenOpens(cs: seq<Chunk>, starts: seq<nat>, offset: nat, file: ReadFile.File,
                                        ti: nat, m: Items, info: TableInfo)
    requires Laid(cs, starts, offset) && offset < U32_LIMIT && Holds(file.data, cs, starts)
    requires TableWritten(cs, ti, m, info) && Readable(TableBuilder(m, None))
    ensures ReadHash.ForBytes(cs[ti].pointer, file).Ok?
    ensures Opens(ReadHash.ForBytes(cs[ti].pointer, file).value, m, info)
    decreases info, 1
  {
    WrittenShows(cs, starts, offset, file, ti, m, info);
    var t := ReadHash.ForBytes(cs[ti].pointer, file).value;
    forall i | 0 <= i < |info.items|
      ensures ValueOpens(t, info.items[i].key, m[info.items[i].key], info.items[i].sub)
    {
      WrittenValueOpens(cs, starts, offset, t, ti, m, info, i);
    }
  }

  /** The header `serialize` puts first opens with `from_bytes` and points at the root. */
  lemma HeaderOpens(out: bytes, byteswap: bool, root: ReadPointer.Pointer, host: Endian.Endian)
    requires |out| >= ReadHeader.HEADER_SIZE
    requires out[..ReadHeader.HEADER_SIZE] == WriteFile.HeaderBytes(byteswap, root, host)
    ensures ReadFile.FromBytes(out, host) == Ok(ReadFile.File(out, byteswap))
    ensures ReadFile.GetHeader(ReadFile.File(out, byteswap), host).Ok?
    ensures ReadHeader.Root(ReadFile.GetHeader(ReadFile.File(out, byteswap), host).value) == root
  {
    var h := ReadHeader.New(byteswap, 0, root, host);
    ReadHeader.DecodeEncode(h, host);
    ReadHeader.IsByteswapOfNew(byteswap, 0, root, host);
    ReadHeader.VersionZero(0, root, byteswap, host);
    ReadFile.FromBytesSpec(out, host);
  }

  /**
   * The capstone: a file `serialize` wrote below 4 GiB, with a table the writer put down as
   * its root, opens with `from_bytes` in the byte order it was written with; `hash_table`
   * opens the root, and the root and every nested table read back as written (Opens).
   */
  lemma FileOpens(cs: seq<Chunk>, starts: seq<nat>, offset: nat, byteswap: bool, ti: nat, v: HashValue,
                  info: TableInfo, host: Endian.Endian)
    requires Laid(cs, starts, offset) && offset < U32_LIMIT && |cs| > 0 && starts[0] == 0
    requires 0 < ti < |cs| && cs[0].data == WriteFile.HeaderBytes(byteswap, cs[ti].pointer, host)
    requires v.TableBuilder? && TableWritten(cs, ti, v.items, info) && Readable(v)
    ensures var out := Emit(cs).0;
      var file := ReadFile.File(out, byteswap);
      ReadFile.FromBytes(out, host) == Ok(file)
      && ReadHash.FileHashTable(file, host).Ok?
      && ReadHash.FileHashTable(file, host).value.pointer == cs[ti].pointer
      && Opens(ReadHash.FileHashTable(file, host).value, v.items, info)
  {
    var out := Emit(cs).0;
    var file := ReadFile.File(out, byteswap);
    EmittedHeader(cs, starts, offset, byteswap, cs[ti].pointer, host);
    assert Readable(TableBuilder(v.items, None));
    WrittenOpens(cs, starts, offset, file, ti, v.items, info);
  }

  /** The bytes `serialize` emits hold every chunk and open with the header of chunk 0. */
  lemma EmittedHeader(cs: seq<Chunk>, starts: seq<nat>, offset: nat, byteswap: bool, root: ReadPointer.Pointer,
                      host: Endian.Endian)
    requires Laid(cs, starts, offset) && offset < U32_LIMIT && |cs| > 0 && starts[0] == 0
    requires cs[0].data == WriteFile.HeaderBytes(byteswap, root, host)
    ensures var out := Emit(cs).0;
      var file := ReadFile.File(out, byteswap);
      Holds(out, cs, starts)
      && ReadFile.FromBytes(out, host) == Ok(file)
      && ReadHash.FileHashTable(file, host) == ReadHash.ForBytes(root, file)
  {
    var out := Emit(cs).0;
    EmitLaid(cs, starts, offset);
    assert out[..ReadHeader.HEADER_SIZE] == cs[0].data;
    HeaderOpens(out, byteswap, root, host);
  }

  /**
   * `write_to_vec_with_table` followed by the reader. A builder the writer accepts is
   * written; when the file is below 4 GiB and its keys are readable, `from_bytes` opens it
   * in the writer's byte order, `hash_table` opens the root, `get_hash_item` finds exactly
   * the builder's keys (the "prefix/" containers included), `get_names` lists each of them
   * once, and every value and nested table reads back as written.
   */
  method WriteThenOpen(w: WriteFile.FileWriter, builder: WriteBuilder.HashTableBuilder, host: Endian.Endian)
    returns (r: Result<bytes, WriteError.Error>, ghost info: TableInfo)
    requires w.Valid() && Fits(builder.Snapshot())
    modifies w
    ensures Writable(builder.Snapshot()) ==> r.Ok?
    ensures r.Err? ==> r.error == WriteError.Consistency
    ensures r.Ok? && w.offset < U32_LIMIT && Readable(builder.Snapshot()) ==>
      var file := ReadFile.File(r.value, w.byteswap);
      ReadFile.FromBytes(r.value, host) == Ok(file)
      && ReadHash.FileHashTable(file, host).Ok?
      && var t := ReadHash.FileHashTable(file, host).value;
         Opens(t, builder.items, info)
         && (forall key :: ValidUtf8(key) ==> (ReadHash.Lookup(t, key).Ok? <==> key in builder.items))
         && ReadHash.Names(t).Ok? && |ReadHash.Names(t).value| == |builder.items|
         && WriteIndexing.SetOf(ReadHash.Names(t).value) == builder.items.Keys
  {
    r, info := WriteFile.WriteToVecWithTable(w, builder, host);
    if r.Ok? && w.offset < U32_LIMIT && Readable(builder.Snapshot()) {
      var ti := |old(w.chunks)|;
      FileOpens(w.chunks, w.starts, w.offset, w.byteswap, ti, builder.Snapshot(), info, host);
      var t := ReadHash.FileHashTable(ReadFile.File(r.value, w.byteswap), host).value;
      ShownReads(t, builder.items, info.items, info.words);
    }
  }
}
