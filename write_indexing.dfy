/**
 * The items of a table built from a map, in the order `SimpleHashTable::iter` yields them
 * (gvdb/src/write/hash.rs): `add_simple_hash_table` gives each its position as its index, so
 * position and item index are the same thing. These are the facts about that order the
 * writer relies on.
 */
module WriteIndexing {
  import opened GvdbUtil
  import opened Wrappers
  import opened WriteItem
  import opened WriteHash
  import opened WriteLayout
  import WriteBuilder

  /** The keys of the entries, in order. */
  function EntryKeys(es: seq<Entry>): (r: seq<bytes>)
    ensures |r| == |es| && forall k :: 0 <= k < |es| ==> r[k] == es[k].1.key
  {
    seq(|es|, k requires 0 <= k < |es| => es[k].1.key)
  }

  /** The item objects of the entries. */
  ghost function EntryItems(es: seq<Entry>): set<HashItemBuilder>
  {
    set k | 0 <= k < |es| :: es[k].1
  }

  predicate Distinct(s: seq<bytes>)
  {
    forall i, j :: 0 <= i < j < |s| ==> s[i] != s[j]
  }

  function SetOf(s: seq<bytes>): set<bytes>
  {
    set x | x in s
  }

  /** A sequence has at most as many different elements as it is long. */
  lemma {:induction false} SetOfSize(s: seq<bytes>)
    ensures |SetOf(s)| <= |s|
    decreases |s|
  {
    if s != [] {
      var n := |s| - 1;
      SetOfSize(s[..n]);
      assert SetOf(s) == SetOf(s[..n]) + {s[n]};
    }
  }

  /** A sequence with as many different elements as it is long repeats none. */
  lemma DistinctBySize(s: seq<bytes>)
    requires |SetOf(s)| >= |s|
    ensures Distinct(s)
  {
    if !Distinct(s) {
      RepeatSmall(s);
      assert false;
    }
  }

  /** A sequence that repeats an element has fewer different elements than it is long. */
  lemma RepeatSmall(s: seq<bytes>)
    requires !Distinct(s)
    ensures |SetOf(s)| < |s|
  {
    var i, j :| 0 <= i < j < |s| && s[i] == s[j];
    var t := s[..j] + s[j + 1..];
    assert SetOf(s) <= SetOf(t) by {
      forall x | x in SetOf(s) ensures x in SetOf(t) {
        var p :| 0 <= p < |s| && s[p] == x;
        if p < j {
          assert t[p] == x;
        } else if p == j {
          assert t[i] == x;
        } else {
          assert t[p - 1] == x;
        }
      }
    }
    SetOfSize(t);
    SubsetSize(SetOf(s), SetOf(t));
  }

  lemma SubsetSize(a: set<bytes>, b: set<bytes>)
    requires a <= b
    ensures |a| <= |b|
  {
    assert b == a + (b - a);
  }

  /**
   * The entries of a table filled from a map: one per key, each key once, each tagged with
   * its key's bucket and carrying its key's hash, and exactly the table's chained items.
   */
  ghost predicate Indexed(es: seq<Entry>, bs: seq<Chain>, m: Items)
  {
    es == Flatten(bs) && |es| == |m| && |bs| == |m|
    && Distinct(EntryKeys(es))
    && (forall k :: 0 <= k < |es| ==>
          es[k].1.key in m && es[k].0 == BucketOf(DjbHash(es[k].1.key), |bs|)
          && es[k].1.hash == DjbHash(es[k].1.key))
    && (forall c :: c in m ==> c in EntryKeys(es))
    && EntryItems(es) == ChainItems(bs)
  }

  /** The entries of a table filled from a map are indexed as Indexed says. */
  lemma EntriesIndexed(bs: seq<Chain>, m: Items)
    requires |bs| == |m| == TotalLen(bs) && WriteBuilder.Keyed(bs, m)
    ensures Indexed(Flatten(bs), bs, m)
  {
    var es := Flatten(bs);
    EntriesInMap(bs, m);
    KeysCovered(bs, m);
    DistinctBySize(EntryKeys(es));
    EntryTags(bs, m);
    EntryItemsChained(bs);
  }

  /** With distinct keys, every entry is tagged with the bucket of its key. */
  lemma EntryTags(bs: seq<Chain>, m: Items)
    requires |bs| == |m| && WriteBuilder.Keyed(bs, m) && Distinct(EntryKeys(Flatten(bs)))
    ensures forall k :: 0 <= k < |Flatten(bs)| ==> Flatten(bs)[k].0 == BucketOf(DjbHash(Flatten(bs)[k].1.key), |bs|)
  {
    forall k | 0 <= k < |Flatten(bs)|
      ensures Flatten(bs)[k].0 == BucketOf(DjbHash(Flatten(bs)[k].1.key), |bs|)
    {
      EntryTag(bs, m, k);
    }
  }

  /** The keys of the entries are exactly the map's keys. */
  lemma KeysCovered(bs: seq<Chain>, m: Items)
    requires |bs| == |m| && WriteBuilder.Keyed(bs, m)
    ensures SetOf(EntryKeys(Flatten(bs))) == m.Keys
  {
    var es := Flatten(bs);
    var keys := EntryKeys(es);
    EntriesInMap(bs, m);
    forall c | c in m ensures c in SetOf(keys) {
      var x := LookupIn(bs, c).value;
      LookupInItems(bs, c);
      ChainItemsAreEntries(bs, x);
      var k :| 0 <= k < |es| && es[k].1 == x;
      assert keys[k] == c;
    }
  }

  /** The entries' items are exactly the chained items. */
  lemma EntryItemsChained(bs: seq<Chain>)
    ensures EntryItems(Flatten(bs)) == ChainItems(bs)
  {
    var es := Flatten(bs);
    forall x | x in ChainItems(bs) ensures x in EntryItems(es) {
      ChainItemsAreEntries(bs, x);
    }
    forall k | 0 <= k < |es| ensures es[k].1 in ChainItems(bs) {
      FlattenMember(bs, k);
      InChainItems(bs, es[k].0, es[k].1);
    }
  }

  /** Every entry's item is chained, is the item its key finds, and holds a key of the map. */
  lemma EntriesInMap(bs: seq<Chain>, m: Items)
    requires |bs| == |m| && WriteBuilder.Keyed(bs, m)
    ensures forall k :: 0 <= k < |Flatten(bs)| ==>
      var x := Flatten(bs)[k].1;
      x in ChainItems(bs) && x.key in m && x.hash == DjbHash(x.key)
      && |bs| > 0 && LookupIn(bs, x.key) == Some(x)
    ensures forall x :: x in EntryItems(Flatten(bs)) ==> x in ChainItems(bs)
  {
    var es := Flatten(bs);
    forall k | 0 <= k < |es|
      ensures es[k].1 in ChainItems(bs) && es[k].1.key in m && |bs| > 0 && LookupIn(bs, es[k].1.key) == Some(es[k].1)
    {
      FlattenMember(bs, k);
      InChainItems(bs, es[k].0, es[k].1);
    }
  }

  /** With distinct keys, an entry is tagged with the bucket of its key. */
  lemma EntryTag(bs: seq<Chain>, m: Items, k: nat)
    requires |bs| == |m| && WriteBuilder.Keyed(bs, m) && Distinct(EntryKeys(Flatten(bs)))
    requires k < |Flatten(bs)|
    ensures Flatten(bs)[k].0 == BucketOf(DjbHash(Flatten(bs)[k].1.key), |bs|)
  {
    var es := Flatten(bs);
    var x := es[k].1;
    EntriesInMap(bs, m);
    var b := BucketOf(DjbHash(x.key), |bs|);
    assert x in bs[b];
    var i :| 0 <= i < |bs[b]| && bs[b][i] == x;
    FlattenAt(bs, b, i);
    var k' := TotalLen(bs[..b]) + i;
    assert EntryKeys(es)[k'] == EntryKeys(es)[k];
  }

  /** The entries before the first of bucket b are those of the buckets below b. */
  lemma {:induction false} FlattenBelow(bs: seq<Chain>, b: nat, k: nat)
    requires b <= |bs| && k < |Flatten(bs)|
    ensures k < TotalLen(bs[..b]) <==> Flatten(bs)[k].0 < b
    decreases |bs|
  {
    FlattenMember(bs, k);
    var last := |bs| - 1;
    var front := bs[..last];
    assert Flatten(bs) == Flatten(front) + Tagged(last, bs[last]);
    if b == |bs| {
      assert bs[..b] == bs;
    } else if k < TotalLen(front) {
      assert Flatten(bs)[k] == Flatten(front)[k];
      assert front[..b] == bs[..b];
      FlattenBelow(front, b, k);
    } else {
      assert front[..b] == bs[..b];
      TotalLenPrefix(front, b);
    }
  }

  /** What a lookup finds is the entry at its key's first position. */
  lemma FoundEntry(es: seq<Entry>, bs: seq<Chain>, m: Items, c: bytes)
    requires Indexed(es, bs, m) && |bs| > 0 && LookupIn(bs, c).Some?
    ensures c in EntryKeys(es) && es[IndexIn(EntryKeys(es), c)].1 == LookupIn(bs, c).value
    ensures LookupIn(bs, c).value in EntryItems(es)
  {
    var x := LookupIn(bs, c).value;
    LookupInItems(bs, c);
    var k :| 0 <= k < |es| && es[k].1 == x;
    var keys := EntryKeys(es);
    assert keys[k] == c;
    DistinctIndex(keys, k);
  }

  /** In a sequence without repeats, an element's first position is its position. */
  lemma DistinctIndex(keys: seq<bytes>, k: nat)
    requires Distinct(keys) && k < |keys|
    ensures IndexIn(keys, keys[k]) == k
  {
  }

  /** The entries' keys are keys of the map, each once, and each item carries its key's hash. */
  predicate Listed(es: seq<Entry>, m: Items)
  {
    |es| == |m| && Distinct(EntryKeys(es))
    && forall k :: 0 <= k < |es| ==> es[k].1.key in m && es[k].1.hash == DjbHash(es[k].1.key)
  }

  /** A lookup finds exactly the map's keys, each the entry at its key's position. */
  ghost predicate Finds(es: seq<Entry>, bs: seq<Chain>, m: Items)
  {
    |bs| == |es|
    && (|bs| > 0 ==>
          forall c {:trigger LookupIn(bs, c)} :: (LookupIn(bs, c).Some? <==> c in m)
                      && (LookupIn(bs, c).Some? ==>
                            c in EntryKeys(es) && es[IndexIn(EntryKeys(es), c)].1 == LookupIn(bs, c).value))
  }

  /** Bucket b's chain is the run of entries from `start` on. */
  predicate InBucket(es: seq<Entry>, bs: seq<Chain>, b: nat, start: nat)
  {
    b < |bs| && start + |bs[b]| <= |es|
    && forall k :: start <= k < start + |bs[b]| ==> ItemOf(es, k) == bs[b][k - start]
  }

  function ItemOf(es: seq<Entry>, k: nat): HashItemBuilder
    requires k < |es|
  {
    es[k].1
  }

  lemma IndexedListed(es: seq<Entry>, bs: seq<Chain>, m: Items)
    requires Indexed(es, bs, m)
    ensures Listed(es, m)
  {
  }

  lemma IndexedFinds(es: seq<Entry>, bs: seq<Chain>, m: Items)
    requires Indexed(es, bs, m) && WriteBuilder.Keyed(bs, m)
    ensures Finds(es, bs, m)
  {
    forall c | |bs| > 0 && LookupIn(bs, c).Some?
      ensures c in EntryKeys(es) && es[IndexIn(EntryKeys(es), c)].1 == LookupIn(bs, c).value
    {
      FoundEntry(es, bs, m, c);
    }
  }

  /** The entries of bucket b start after those of the buckets below it. */
  lemma {:induction false} FlattenBucket(bs: seq<Chain>, b: nat)
    requires b < |bs|
    ensures InBucket(Flatten(bs), bs, b, TotalLen(bs[..b]))
    decreases |bs|
  {
    var last := |bs| - 1;
    var front := bs[..last];
    var es := Flatten(bs);
    assert es == Flatten(front) + Tagged(last, bs[last]);
    if b == last {
      assert bs[..b] == front;
      var start := TotalLen(front);
      forall k | start <= k < start + |bs[b]| ensures ItemOf(es, k) == bs[b][k - start] {
        assert es[k] == Tagged(last, bs[last])[k - start];
      }
    } else {
      FlattenBucket(front, b);
      assert front[..b] == bs[..b];
      assert front[b] == bs[b];
      var start := TotalLen(bs[..b]);
      forall k | start <= k < start + |bs[b]| ensures ItemOf(es, k) == bs[b][k - start] {
        assert ItemOf(Flatten(front), k) == bs[b][k - start];
        assert es[k] == Flatten(front)[k];
      }
    }
  }
}
