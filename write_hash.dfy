/**
 * The writer's in-memory hash table (gvdb/src/write/hash.rs): a fixed number of buckets,
 * each a collision chain of item builders, and the iterators over all items and over one
 * bucket.
 *
 * The source links a chain through each item's `next` cell; here a bucket is the sequence of
 * its chain, head first, so relinking `next` becomes splicing that sequence. The item
 * objects themselves are shared, as the source's `Rc`s are.
 */
module WriteHash {
  import opened GvdbUtil
  import opened Wrappers
  import opened WriteItem

  type Chain = seq<HashItemBuilder>
  type Entry = (nat, HashItemBuilder)

  /** The position of the first item of a chain with the key. */
  function FindInChain(chain: Chain, key: bytes): (r: Option<nat>)
    ensures r.Some? ==> r.value < |chain| && chain[r.value].key == key
                        && forall j :: 0 <= j < r.value ==> chain[j].key != key
    ensures r.None? ==> forall j :: 0 <= j < |chain| ==> chain[j].key != key
  {
    if chain == [] then None
    else if chain[0].key == key then Some(0)
    else match FindInChain(chain[1..], key)
      case None => None
      case Some(i) => Some(i + 1)
  }

  /** The first item of a chain with the key. */
  function LookupChain(chain: Chain, key: bytes): Option<HashItemBuilder>
  {
    match FindInChain(chain, key)
    case None => None
    case Some(i) => Some(chain[i])
  }

  /** What `get` finds in buckets bs: the first item with the key in the key's bucket. */
  function LookupIn(bs: seq<Chain>, key: bytes): (r: Option<HashItemBuilder>)
    requires |bs| > 0
    ensures r.Some? ==> r.value.key == key && r.value in bs[BucketOf(DjbHash(key), |bs|)]
  {
    LookupChain(bs[BucketOf(DjbHash(key), |bs|)], key)
  }

  /** The chain after `insert` put `item` at its head: it replaces a head with the same key. */
  function Pushed(chain: Chain, item: HashItemBuilder): Chain
  {
    if chain != [] && chain[0].key == item.key then [item] + chain[1..] else [item] + chain
  }

  /** After a push the new item is what the chain yields for its key. */
  lemma PushedFinds(chain: Chain, item: HashItemBuilder)
    ensures LookupChain(Pushed(chain, item), item.key) == Some(item)
  {
  }

  /** A push leaves what the chain yields for every other key unchanged. */
  lemma PushedKeepsOthers(chain: Chain, item: HashItemBuilder, key: bytes)
    requires key != item.key
    ensures LookupChain(Pushed(chain, item), key) == LookupChain(chain, key)
  {
    var c := Pushed(chain, item);
    if chain != [] && chain[0].key == item.key {
      assert c[1..] == chain[1..];
      assert FindInChain(c, key) == FindInChain(chain, key);
    } else {
      assert c[1..] == chain;
    }
  }

  /** A push with a key already at the head keeps the chain's length; otherwise it adds one. */
  lemma PushedLength(chain: Chain, item: HashItemBuilder)
    ensures |Pushed(chain, item)| == if chain != [] && chain[0].key == item.key then |chain| else |chain| + 1
  {
  }

  /** The chain without the item at position i. */
  function Unlinked(chain: Chain, i: nat): (r: Chain)
    requires i < |chain|
    ensures |r| == |chain| - 1
  {
    chain[..i] + chain[i + 1..]
  }

  /**
   * Removing the first item with a key exposes the next one with that key, if any: a key
   * present once is gone after `remove`, and other keys are unaffected.
   */
  lemma UnlinkedLookup(chain: Chain, key: bytes, other: bytes)
    requires FindInChain(chain, key).Some?
    ensures var i := FindInChain(chain, key).value;
      LookupChain(Unlinked(chain, i), key) == LookupChain(chain[i + 1..], key)
    ensures other != key ==> var i := FindInChain(chain, key).value;
      LookupChain(Unlinked(chain, i), other) == LookupChain(chain, other)
  {
    var i := FindInChain(chain, key).value;
    UnlinkedFind(chain, i, key);
    if other != key {
      UnlinkedFindOther(chain, i, other);
    }
  }

  lemma {:induction false} UnlinkedFind(chain: Chain, i: nat, key: bytes)
    requires FindInChain(chain, key) == Some(i)
    ensures LookupChain(Unlinked(chain, i), key) == LookupChain(chain[i + 1..], key)
    decreases i, 1
  {
    if i == 0 {
      assert Unlinked(chain, i) == chain[1..];
    } else {
      UnlinkedFindBehind(chain, i - 1, key);
    }
  }

  lemma {:induction false} UnlinkedFindBehind(chain: Chain, j: nat, key: bytes)
    requires FindInChain(chain, key) == Some(j + 1)
    ensures LookupChain(Unlinked(chain, j + 1), key) == LookupChain(chain[j + 2..], key)
    decreases j + 1, 0
  {
    var tail := chain[1..];
    assert FindInChain(tail, key) == Some(j);
    UnlinkedFind(tail, j, key);
    UnlinkedCons(chain, j);
    LookupBehind(chain[0], Unlinked(tail, j), key);
    assert tail[j + 1..] == chain[j + 2..];
  }

  /** Unlinking behind the head keeps the head. */
  lemma UnlinkedCons(chain: Chain, j: nat)
    requires j + 1 < |chain|
    ensures Unlinked(chain, j + 1) == [chain[0]] + Unlinked(chain[1..], j)
  {
    assert chain[1..][..j] == chain[1..j + 1];
    assert chain[1..][j + 1..] == chain[j + 2..];
  }

  /** A head with another key does not change what a chain yields for a key. */
  lemma LookupBehind(head: HashItemBuilder, rest: Chain, key: bytes)
    requires head.key != key
    ensures LookupChain([head] + rest, key) == LookupChain(rest, key)
  {
    assert ([head] + rest)[1..] == rest;
  }

  lemma {:induction false} UnlinkedFindOther(chain: Chain, i: nat, key: bytes)
    requires i < |chain| && chain[i].key != key
    requires forall j :: 0 <= j < i ==> chain[j].key != chain[i].key
    ensures LookupChain(Unlinked(chain, i), key) == LookupChain(chain, key)
    decreases i, 1
  {
    if i == 0 {
      assert Unlinked(chain, i) == chain[1..];
    } else if chain[0].key == key {
      assert Unlinked(chain, i)[0] == chain[0];
    } else {
      UnlinkedOtherBehind(chain, i - 1, key);
    }
  }

  lemma {:induction false} UnlinkedOtherBehind(chain: Chain, j: nat, key: bytes)
    requires j + 1 < |chain| && chain[j + 1].key != key && chain[0].key != key
    requires forall k :: 0 <= k < j + 1 ==> chain[k].key != chain[j + 1].key
    ensures LookupChain(Unlinked(chain, j + 1), key) == LookupChain(chain, key)
    decreases j + 1, 0
  {
    var tail := chain[1..];
    UnlinkedFindOther(tail, j, key);
    UnlinkedCons(chain, j);
    LookupBehind(chain[0], Unlinked(tail, j), key);
    LookupBehind(chain[0], tail, key);
    assert chain == [chain[0]] + tail;
  }

  /** The number of items in all chains. */
  function TotalLen(bs: seq<Chain>): nat
    decreases |bs|
  {
    if bs == [] then 0 else TotalLen(bs[..|bs| - 1]) + |bs[|bs| - 1]|
  }

  lemma {:induction false} TotalLenEmpty(n: nat)
    ensures TotalLen(seq(n, _ => [])) == 0
  {
    if n > 0 {
      var bs: seq<Chain> := seq(n, _ => []);
      assert bs[..n - 1] == seq(n - 1, _ => []);
      TotalLenEmpty(n - 1);
    }
  }

  /** Replacing one chain changes the total by the difference of the two lengths. */
  lemma {:induction false} TotalLenUpdate(bs: seq<Chain>, b: nat, c: Chain)
    requires b < |bs|
    ensures TotalLen(bs[b := c]) == TotalLen(bs) - |bs[b]| + |c|
    decreases |bs|
  {
    var bs' := bs[b := c];
    if b < |bs| - 1 {
      assert bs'[..|bs'| - 1] == bs[..|bs| - 1][b := c];
      TotalLenUpdate(bs[..|bs| - 1], b, c);
    } else {
      assert bs'[..|bs'| - 1] == bs[..|bs| - 1];
    }
  }

  /** One more chain adds its length. */
  lemma TotalLenSnoc(bs: seq<Chain>, b: nat)
    requires b < |bs|
    ensures TotalLen(bs[..b + 1]) == TotalLen(bs[..b]) + |bs[b]|
  {
    assert bs[..b + 1][..b] == bs[..b];
  }

  lemma TotalLenWhole(bs: seq<Chain>)
    ensures TotalLen(bs[..|bs|]) == TotalLen(bs)
  {
    assert bs[..|bs|] == bs;
  }

  lemma {:induction false} TotalLenPrefix(bs: seq<Chain>, b: nat)
    requires b <= |bs|
    ensures TotalLen(bs[..b]) <= TotalLen(bs)
    decreases |bs| - b
  {
    if b < |bs| {
      TotalLenSnoc(bs, b);
      TotalLenPrefix(bs, b + 1);
    } else {
      assert bs[..b] == bs;
    }
  }

  /** A chain's items tagged with their bucket. */
  function Tagged(b: nat, chain: Chain): (r: seq<Entry>)
    ensures |r| == |chain| && forall i :: 0 <= i < |chain| ==> r[i] == (b, chain[i])
  {
    seq(|chain|, i requires 0 <= i < |chain| => (b, chain[i]))
  }

  /** The items of all buckets in ascending bucket order, each chain head to tail. */
  function Flatten(bs: seq<Chain>): (r: seq<Entry>)
    ensures |r| == TotalLen(bs)
    decreases |bs|
  {
    if bs == [] then [] else Flatten(bs[..|bs| - 1]) + Tagged(|bs| - 1, bs[|bs| - 1])
  }

  /** Item i of bucket b sits at position TotalLen(bs[..b]) + i of the flattened sequence. */
  predicate Placed(bs: seq<Chain>, b: nat, i: nat)
    requires b < |bs| && i < |bs[b]|
  {
    TotalLen(bs[..b]) + i < |Flatten(bs)| && Flatten(bs)[TotalLen(bs[..b]) + i] == (b, bs[b][i])
  }

  lemma {:induction false} FlattenAt(bs: seq<Chain>, b: nat, i: nat)
    requires b < |bs| && i < |bs[b]|
    ensures Placed(bs, b, i)
    decreases |bs|
  {
    var last := |bs| - 1;
    if b == last {
      assert bs[..b] == bs[..|bs| - 1];
    } else {
      FlattenAt(bs[..last], b, i);
      assert bs[..last][..b] == bs[..b];
      TotalLenPrefix(bs[..last], b + 1);
      TotalLenSnoc(bs[..last], b);
    }
  }

  /** Every entry of the flattened sequence is an item of the bucket it is tagged with. */
  lemma {:induction false} FlattenMember(bs: seq<Chain>, k: nat)
    requires k < |Flatten(bs)|
    ensures Flatten(bs)[k].0 < |bs| && Flatten(bs)[k].1 in bs[Flatten(bs)[k].0]
    decreases |bs|
  {
    var last := |bs| - 1;
    if k >= TotalLen(bs[..last]) {
      var i := k - TotalLen(bs[..last]);
      assert Flatten(bs)[k] == (last, bs[last][i]);
    } else {
      FlattenMember(bs[..last], k);
      var e := Flatten(bs)[k];
      assert e == Flatten(bs[..last])[k];
      assert bs[..last][e.0] == bs[e.0];
    }
  }

  /** `SimpleHashTable` */
  class SimpleHashTable {
    var buckets: seq<Chain>
    var nItems: nat

    /** `n_items` counts exactly the chained items. */
    ghost predicate Valid()
      reads this
    {
      nItems == TotalLen(buckets)
    }

    /** `with_n_buckets`: n empty buckets and no items. */
    constructor WithNBuckets(n: nat)
      ensures Valid() && buckets == seq(n, _ => []) && nItems == 0
    {
      buckets := seq(n, _ => []);
      nItems := 0;
      TotalLenEmpty(n);
    }

    function NBuckets(): nat
      reads this
    {
      |buckets|
    }

    function NItems(): nat
      reads this
    {
      nItems
    }

    /** `hash_bucket`: the source divides by the bucket count, which must not be 0. */
    function HashBucket(hashValue: u32): (b: nat)
      reads this
      requires |buckets| > 0
      ensures b < |buckets|
    {
      BucketOf(hashValue, |buckets|)
    }

    /** What `get` returns: the first item with the key in the key's bucket. */
    function Lookup(key: bytes): (r: Option<HashItemBuilder>)
      reads this
      requires |buckets| > 0
      ensures r.Some? ==> r.value.key == key && r.value in buckets[HashBucket(DjbHash(key))]
    {
      LookupIn(buckets, key)
    }

    /** `insert`: the new item becomes the head of the key's bucket. */
    method Insert(key: bytes, value: HashValue) returns (item: HashItemBuilder)
      requires Valid() && |buckets| > 0
      modifies this
      ensures Valid() && |buckets| == |old(buckets)|
      ensures fresh(item) && item.key == key && item.hash == DjbHash(key) && item.value == value
      ensures item.assignedIndex == U32_MAX && item.parent == None
      ensures var b := HashBucket(DjbHash(key));
        buckets == old(buckets)[b := Pushed(old(buckets)[b], item)]
        && nItems == if old(buckets)[b] != [] && old(buckets)[b][0].key == key then old(nItems) else old(nItems) + 1
      ensures Lookup(key) == Some(item)
      ensures forall k :: k != key ==> Lookup(k) == old(Lookup(k))
    {
      var hashValue := DjbHashLoop(key);
      var bucket := HashBucket(hashValue);
      item := new HashItemBuilder(key, hashValue, value);
      var chain := buckets[bucket];
      if chain != [] && chain[0].key == key {
        // replace: the new head takes over the old head's `next`
        buckets := buckets[bucket := [item] + chain[1..]];
      } else {
        buckets := buckets[bucket := [item] + chain];
        nItems := nItems + 1;
      }
      TotalLenUpdate(old(buckets), bucket, buckets[bucket]);
      PushedFinds(chain, item);
      forall k | k != key
        ensures Lookup(k) == old(Lookup(k))
      {
        if HashBucket(DjbHash(k)) == bucket {
          PushedKeepsOthers(chain, item, k);
        }
      }
    }

    /** `get_from_bucket`: the first item with the key in a bucket, and the item before it. */
    method GetFromBucket(key: bytes, bucket: nat) returns (r: Option<(Option<HashItemBuilder>, HashItemBuilder)>, pos: nat)
      ensures bucket >= |buckets| ==> r.None?
      ensures bucket < |buckets| ==> (r.Some? <==> FindInChain(buckets[bucket], key).Some?)
      ensures r.Some? ==> bucket < |buckets| && FindInChain(buckets[bucket], key) == Some(pos)
                          && r.value.1 == buckets[bucket][pos]
                          && r.value.0 == if pos == 0 then None else Some(buckets[bucket][pos - 1])
    {
      pos := 0;
      if bucket >= |buckets| {
        return None, 0;
      }
      var chain := buckets[bucket];
      var previous: Option<HashItemBuilder> := None;
      while pos < |chain|
        invariant pos <= |chain|
        invariant forall j :: 0 <= j < pos ==> chain[j].key != key
        invariant previous == if pos == 0 then None else Some(chain[pos - 1])
      {
        var current := chain[pos];
        if current.key == key {
          FindFirst(chain, key, pos);
          return Some((previous, current)), pos;
        }
        previous := Some(current);
        pos := pos + 1;
      }
      return None, 0;
    }

    /** `get` */
    method Get(key: bytes) returns (r: Option<HashItemBuilder>)
      requires |buckets| > 0
      ensures r == Lookup(key)
    {
      var hashValue := DjbHashLoop(key);
      var found, pos := GetFromBucket(key, HashBucket(hashValue));
      r := if found.Some? then Some(found.value.1) else None;
    }

    /**
     * `remove`: unlinks the first item with the key from its bucket and counts one item
     * fewer, or reports false and changes nothing when the key's chain does not hold it.
     */
    method Remove(key: bytes) returns (removed: bool)
      requires Valid() && |buckets| > 0
      modifies this
      ensures Valid() && |buckets| == |old(buckets)|
      ensures var b := HashBucket(DjbHash(key));
        removed == FindInChain(old(buckets)[b], key).Some?
        && (removed ==> buckets == old(buckets)[b := Unlinked(old(buckets)[b], FindInChain(old(buckets)[b], key).value)]
                        && nItems == old(nItems) - 1)
        && (!removed ==> buckets == old(buckets) && nItems == old(nItems))
    {
      var hashValue := DjbHashLoop(key);
      var bucket := HashBucket(hashValue);
      var found, pos := GetFromBucket(key, bucket);
      if found.Some? {
        // `previous.next` (or the bucket head) takes over the removed item's `next`
        var chain := buckets[bucket];
        buckets := buckets[bucket := Unlinked(chain, pos)];
        TotalLenUpdate(old(buckets), bucket, buckets[bucket]);
        nItems := nItems - 1;
        removed := true;
      } else {
        removed := false;
      }
    }

    ghost function ItemSet(): set<HashItemBuilder>
      reads this
    {
      ChainItems(buckets)
    }

    /** The items `iter` yields, in order, with their buckets. */
    function Entries(): (r: seq<Entry>)
      reads this
    {
      Flatten(buckets)
    }

    /** The items `iter_bucket(b)` yields: bucket b's chain, nothing when b is out of range. */
    function BucketItems(b: nat): Chain
      reads this
    {
      if b < |buckets| then buckets[b] else []
    }

    /** `iter`: an iterator at the first bucket that has yielded nothing yet. */
    method Iter() returns (it: SimpleHashTableIter)
      ensures fresh(it) && it.table == this && it.Valid() && it.pos == 0
    {
      it := new SimpleHashTableIter(this);
    }

    /** `iter_bucket` */
    method IterBucket(b: nat) returns (it: SimpleHashTableBucketIter)
      ensures fresh(it) && it.table == this && it.bucket == b && it.Valid() && it.pos == 0
    {
      it := new SimpleHashTableBucketIter(this, b);
    }
  }

  /**
   * `SimpleHashTableIter`: the bucket it is in and the last item it yielded, written here as
   * that item's bucket and position in the bucket's chain. `pos` counts the items yielded.
   */
  class SimpleHashTableIter {
    const table: SimpleHashTable
    var bucket: nat
    var last: Option<(nat, nat)>
    ghost var pos: nat

    /**
     * Without a last item the iterator stands at the start of `bucket`; with one, it stands
     * right after that item, or, once the last item of the last bucket was passed, at the end.
     */
    ghost predicate Valid()
      reads this, table
    {
      var bs := table.buckets;
      match last
      case None => bucket <= |bs| && pos == TotalLen(bs[..bucket])
      case Some((lb, li)) =>
        lb < |bs| && li < |bs[lb]|
        && ((bucket == lb && pos == TotalLen(bs[..lb]) + li + 1)
            || (bucket > lb && lb == |bs| - 1 && li == |bs[lb]| - 1 && pos == TotalLen(bs)))
    }

    constructor (table: SimpleHashTable)
      ensures this.table == table && bucket == 0 && last == None && pos == 0 && Valid()
    {
      this.table := table;
      bucket := 0;
      last := None;
      pos := 0;
    }

    /**
     * `next`: the entry after the ones already yielded, in bucket order and chain order,
     * tagged with its bucket; None once all `n_items` were yielded.
     */
    method Next() returns (r: Option<Entry>)
      requires Valid()
      modifies this
      ensures Valid()
      ensures old(pos) < |table.Entries()| ==> r == Some(table.Entries()[old(pos)]) && pos == old(pos) + 1
      ensures old(pos) >= |table.Entries()| ==> r == None && pos == old(pos)
    {
      if last.Some? {
        var (lb, li) := last.value;
        if li + 1 < |table.buckets[lb]| {
          // the next item in the same bucket
          FlattenAt(table.buckets, lb, li + 1);
          last := Some((lb, li + 1));
          pos := pos + 1;
          return Some((bucket, table.buckets[lb][li + 1]));
        }
        bucket := bucket + 1;
        if bucket <= |table.buckets| {
          TotalLenSnoc(table.buckets, lb);
        }
      }
      r := Seek();
    }

    /**
     * Where `next`'s loop over the buckets starts: at the start of `bucket`, or right after
     * the last item of the bucket before it, or past the end.
     */
    ghost predicate Seeking()
      reads this, table
    {
      var bs := table.buckets;
      match last
      case None => bucket <= |bs| && pos == TotalLen(bs[..bucket])
      case Some((lb, li)) =>
        lb < |bs| && li == |bs[lb]| - 1
        && ((bucket == lb + 1 && pos == TotalLen(bs[..bucket]))
            || (lb == |bs| - 1 && bucket > lb && pos == TotalLen(bs)))
    }

    /** The loop of `next`: the head of the first non-empty bucket from `bucket` on. */
    method Seek() returns (r: Option<Entry>)
      requires Seeking()
      modifies this
      ensures Valid()
      ensures old(pos) < |table.Entries()| ==> r == Some(table.Entries()[old(pos)]) && pos == old(pos) + 1
      ensures old(pos) >= |table.Entries()| ==> r == None && pos == old(pos)
    {
      ghost var bs := table.buckets;
      while bucket < |table.buckets|
        invariant Seeking() && pos == old(pos)
        decreases |bs| - bucket
      {
        last := None;
        if table.buckets[bucket] != [] {
          FlattenAt(bs, bucket, 0);
          last := Some((bucket, 0));
          pos := pos + 1;
          return Some((bucket, table.buckets[bucket][0]));
        }
        TotalLenSnoc(bs, bucket);
        bucket := bucket + 1;
      }
      assert bs[..|bs|] == bs;
      return None;
    }
  }

  /** `SimpleHashTableBucketIter`: the position of the last item it yielded in its bucket. */
  class SimpleHashTableBucketIter {
    const table: SimpleHashTable
    const bucket: nat
    var last: Option<nat>
    ghost var pos: nat

    ghost predicate Valid()
      reads this, table
    {
      match last
      case None => pos == 0
      case Some(i) => i < |table.BucketItems(bucket)| && pos == i + 1
    }

    constructor (table: SimpleHashTable, bucket: nat)
      ensures this.table == table && this.bucket == bucket && last == None && pos == 0 && Valid()
    {
      this.table := table;
      this.bucket := bucket;
      last := None;
      pos := 0;
    }

    /**
     * `next`: the bucket's chain head first; None after its last item, and None at once for
     * an empty bucket or one out of range.
     */
    method Next() returns (r: Option<HashItemBuilder>)
      requires Valid()
      modifies this
      ensures Valid()
      ensures old(pos) < |table.BucketItems(bucket)| ==> r == Some(table.BucketItems(bucket)[old(pos)]) && pos == old(pos) + 1
      ensures old(pos) >= |table.BucketItems(bucket)| ==> r == None && pos == old(pos)
    {
      if last.Some? {
        var i := last.value;
        if i + 1 < |table.BucketItems(bucket)| {
          last := Some(i + 1);
          pos := pos + 1;
          return Some(table.BucketItems(bucket)[i + 1]);
        }
        return None;
      } else if bucket < |table.buckets| && table.buckets[bucket] != [] {
        last := Some(0);
        pos := pos + 1;
        return Some(table.buckets[bucket][0]);
      }
      return None;
    }
  }

  /**
   * The flattened buckets hold every chained item exactly where its bucket and position say:
   * item i of bucket b at TotalLen(bs[..b]) + i, and nothing else.
   */
  lemma FlattenSpec(bs: seq<Chain>)
    ensures |Flatten(bs)| == TotalLen(bs)
    ensures forall b: nat, i: nat :: b < |bs| && i < |bs[b]| ==> Placed(bs, b, i)
    ensures forall k :: 0 <= k < |Flatten(bs)| ==> Flatten(bs)[k].0 < |bs| && Flatten(bs)[k].1 in bs[Flatten(bs)[k].0]
  {
    forall b: nat, i: nat | b < |bs| && i < |bs[b]| {
      FlattenAt(bs, b, i);
    }
    forall k | 0 <= k < |Flatten(bs)|
      ensures Flatten(bs)[k].0 < |bs| && Flatten(bs)[k].1 in bs[Flatten(bs)[k].0]
    {
      FlattenMember(bs, k);
    }
  }

  /** The items chained in any bucket. */
  ghost function ChainItems(bs: seq<Chain>): set<HashItemBuilder>
    decreases |bs|
  {
    if bs == [] then {} else ChainItems(bs[..|bs| - 1]) + ChainSet(bs[|bs| - 1])
  }

  /** The items of one chain. */
  ghost function ChainSet(c: Chain): set<HashItemBuilder>
    decreases |c|
  {
    if c == [] then {} else ChainSet(c[..|c| - 1]) + {c[|c| - 1]}
  }

  lemma {:induction false} ChainSetHas(c: Chain, x: HashItemBuilder)
    ensures x in ChainSet(c) <==> x in c
    decreases |c|
  {
    if c != [] {
      ChainSetHas(c[..|c| - 1], x);
      assert c == c[..|c| - 1] + [c[|c| - 1]];
    }
  }

  /** An item is chained when some bucket holds it. */
  lemma {:induction false} ChainItemsHas(bs: seq<Chain>, x: HashItemBuilder)
    ensures x in ChainItems(bs) <==> exists b :: 0 <= b < |bs| && x in bs[b]
    decreases |bs|
  {
    if bs != [] {
      var front := bs[..|bs| - 1];
      ChainItemsHas(front, x);
      ChainSetHas(bs[|bs| - 1], x);
      if x in ChainItems(front) {
        var b :| 0 <= b < |front| && x in front[b];
        assert x in bs[b];
      }
      if exists b :: 0 <= b < |bs| && x in bs[b] {
        var b :| 0 <= b < |bs| && x in bs[b];
        if b < |front| {
          assert x in front[b];
        }
      }
    }
  }

  /** The chained items are objects that exist. */
  lemma ChainItemsAllocated(bs: seq<Chain>)
    ensures forall x :: x in ChainItems(bs) ==> allocated(x)
  {
    forall x | x in ChainItems(bs) ensures allocated(x) {
      ChainItemsHas(bs, x);
    }
  }

  /** Empty buckets chain no items. */
  lemma ChainItemsEmpty(n: nat)
    ensures ChainItems(seq(n, _ => [])) == {}
  {
    var bs: seq<Chain> := seq(n, _ => []);
    forall x | x in ChainItems(bs) ensures false {
      ChainItemsHas(bs, x);
    }
  }

  lemma InChainItems(bs: seq<Chain>, b: nat, x: HashItemBuilder)
    requires b < |bs| && x in bs[b]
    ensures x in ChainItems(bs)
  {
    ChainItemsHas(bs, x);
  }

  /** What a lookup finds is a chained item. */
  lemma LookupInItems(bs: seq<Chain>, key: bytes)
    requires |bs| > 0 && LookupIn(bs, key).Some?
    ensures LookupIn(bs, key).value in ChainItems(bs)
  {
    InChainItems(bs, BucketOf(DjbHash(key), |bs|), LookupIn(bs, key).value);
  }

  /** A push onto one bucket adds the pushed item and nothing else. */
  lemma ChainItemsPush(bs: seq<Chain>, b: nat, item: HashItemBuilder)
    requires b < |bs|
    ensures ChainItems(bs[b := Pushed(bs[b], item)]) <= ChainItems(bs) + {item}
    ensures item in ChainItems(bs[b := Pushed(bs[b], item)])
  {
    var bs' := bs[b := Pushed(bs[b], item)];
    forall x | x in ChainItems(bs') ensures x in ChainItems(bs) || x == item {
      ChainItemsHas(bs', x);
      var b' :| 0 <= b' < |bs'| && x in bs'[b'];
      if x != item {
        ChainItemsHas(bs, x);
        if b' == b {
          assert x in bs[b];
        } else {
          assert x in bs[b'];
        }
      }
    }
    InChainItems(bs', b, item);
  }

  /** Every chained item is yielded by `iter`, tagged with its bucket. */
  lemma ChainItemsAreEntries(bs: seq<Chain>, x: HashItemBuilder)
    requires x in ChainItems(bs)
    ensures exists k :: 0 <= k < |Flatten(bs)| && Flatten(bs)[k].1 == x
  {
    ChainItemsHas(bs, x);
    var b :| 0 <= b < |bs| && x in bs[b];
    var i :| 0 <= i < |bs[b]| && bs[b][i] == x;
    FlattenAt(bs, b, i);
  }

  /** A scan that reached position i without a match, and matches there, found the first. */
  lemma FindFirst(chain: Chain, key: bytes, i: nat)
    requires i < |chain| && chain[i].key == key
    requires forall j :: 0 <= j < i ==> chain[j].key != key
    ensures FindInChain(chain, key) == Some(i)
  {
  }
}
