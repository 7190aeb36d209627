/**
 * `HashTableBuilder` (gvdb/src/write/file.rs, lines 30-248): the key-value map a file is
 * written from. With a path separator, inserting a key also creates or extends one
 * container item per proper prefix of the key that ends in the separator, each listing its
 * direct child; `build` turns the map into a `SimpleHashTable` and links children to their
 * containers.
 *
 * Keys are the UTF-8 bytes of the source's `String`s and the separator is one byte.
 */
module WriteBuilder {
  import opened GvdbUtil
  import opened Wrappers
  import opened WriteError
  import opened WriteItem
  import WriteHash
  import KeyOrder

  type Items = map<bytes, HashValue>

  const SLASH: byte := 47

  /** The position of the first occurrence of x in s. */
  function IndexOf(s: bytes, x: byte): (r: nat)
    requires x in s
    ensures r < |s| && s[r] == x && x !in s[..r]
  {
    if s[0] == x then 0 else IndexOf(s[1..], x) + 1
  }

  /** `str::split` with a one-byte pattern: the pieces between separators, at least one. */
  function Split(s: bytes, sep: byte): (r: seq<bytes>)
    ensures |r| >= 1
    decreases |s|
  {
    if sep !in s then [s]
    else
      var p := IndexOf(s, sep);
      [s[..p]] + Split(s[p + 1..], sep)
  }

  /** The pieces put back together with the separator between them. */
  function Join(segs: seq<bytes>, sep: byte): bytes
    requires |segs| >= 1
    decreases |segs|
  {
    if |segs| == 1 then segs[0] else Join(segs[..|segs| - 1], sep) + [sep] + segs[|segs| - 1]
  }

  lemma {:induction false} JoinCons(a: bytes, rest: seq<bytes>, sep: byte)
    requires |rest| >= 1
    ensures Join([a] + rest, sep) == a + [sep] + Join(rest, sep)
    decreases |rest|
  {
    var s := [a] + rest;
    if |rest| > 1 {
      assert s[..|s| - 1] == [a] + rest[..|rest| - 1];
      JoinCons(a, rest[..|rest| - 1], sep);
    } else {
      assert s[..|s| - 1] == [a];
    }
  }

  /** Splitting and joining again gives back the key. */
  lemma {:induction false} JoinSplit(s: bytes, sep: byte)
    ensures Join(Split(s, sep), sep) == s
    decreases |s|
  {
    if sep in s {
      var p := IndexOf(s, sep);
      JoinSplit(s[p + 1..], sep);
      JoinCons(s[..p], Split(s[p + 1..], sep), sep);
      assert s == s[..p] + [sep] + s[p + 1..];
    }
  }

  /** Joining the first j pieces, the separator and the rest gives the whole join. */
  lemma {:induction false} JoinAt(segs: seq<bytes>, j: nat, sep: byte)
    requires 1 <= j < |segs|
    ensures Join(segs, sep) == Join(segs[..j], sep) + [sep] + Join(segs[j..], sep)
    decreases |segs|
  {
    var n := |segs|;
    if j == n - 1 {
      assert segs[j..] == [segs[n - 1]];
    } else {
      JoinAt(segs[..n - 1], j, sep);
      assert segs[..n - 1][..j] == segs[..j];
      assert segs[..n - 1][j..] == segs[j..n - 1];
      assert segs[j..][..|segs[j..]| - 1] == segs[j..n - 1];
    }
  }

  /** A join of several pieces is at least as long as the separators between them. */
  lemma {:induction false} JoinLength(segs: seq<bytes>, sep: byte)
    requires |segs| >= 1
    ensures |Join(segs, sep)| >= |segs| - 1
    ensures |Join(segs, sep)| >= |segs[|segs| - 1]|
    decreases |segs|
  {
    if |segs| > 1 {
      JoinLength(segs[..|segs| - 1], sep);
    }
  }

  /** How many proper prefixes of the key end with a separator after a piece. */
  function NAncestors(segs: seq<bytes>): nat
    requires |segs| >= 1
  {
    if |segs| >= 2 && segs[|segs| - 1] == [] then |segs| - 2 else |segs| - 1
  }

  /**
   * The keys `insert_item_value` visits for `key`: every proper prefix of the key that
   * ends with the separator (the containers), then the key itself.
   */
  function Path(key: bytes, sep: byte): (r: seq<bytes>)
    ensures |r| >= 1 && r[|r| - 1] == key
  {
    var segs := Split(key, sep);
    Ancestors(segs, sep, NAncestors(segs)) + [key]
  }

  /** The first k container keys of a split key. */
  function Ancestors(segs: seq<bytes>, sep: byte, k: nat): (r: seq<bytes>)
    requires k < |segs|
    ensures |r| == k && forall i :: 0 <= i < k ==> r[i] == Ancestor(segs, i, sep)
  {
    if k == 0 then [] else Ancestors(segs, sep, k - 1) + [Ancestor(segs, k - 1, sep)]
  }

  /** The container key made of the first j + 1 pieces. */
  function Ancestor(segs: seq<bytes>, j: nat, sep: byte): bytes
    requires j < |segs|
  {
    Join(segs[..j + 1], sep) + [sep]
  }

  lemma PathAt(key: bytes, sep: byte, j: nat)
    requires j <= NAncestors(Split(key, sep))
    ensures |Path(key, sep)| == NAncestors(Split(key, sep)) + 1
    ensures Path(key, sep)[j] == if j < NAncestors(Split(key, sep)) then Ancestor(Split(key, sep), j, sep) else key
  {
  }

  /**
   * Every key on the path is a prefix of the key, each container key ends with the
   * separator, and the keys grow strictly in length (so they are distinct).
   */
  lemma PathSpec(key: bytes, sep: byte)
    ensures var p := Path(key, sep);
      forall j :: 0 <= j < |p| ==> |p[j]| <= |key| && p[j] == key[..|p[j]|]
    ensures var p := Path(key, sep);
      forall j :: 0 <= j < |p| - 1 ==> |p[j]| < |key| && p[j] != [] && p[j][|p[j]| - 1] == sep
    ensures var p := Path(key, sep);
      forall i, j :: 0 <= i < j < |p| ==> |p[i]| < |p[j]|
  {
    var segs := Split(key, sep);
    var p := Path(key, sep);
    var n := NAncestors(segs);
    JoinSplit(key, sep);
    forall j | 0 <= j < n
      ensures |p[j]| < |key| && p[j] == key[..|p[j]|]
      ensures j + 1 < n ==> |p[j]| < |p[j + 1]|
    {
      PathAt(key, sep, j);
      AncestorIsPrefix(segs, j, sep);
      if j + 1 < n {
        PathAt(key, sep, j + 1);
        AncestorGrows(segs, j, sep);
      }
    }
    forall i, j | 0 <= i < j < |p|
      ensures |p[i]| < |p[j]|
    {
      PathGrows(p, key, n, i, j);
    }
  }

  /** The next container key is longer. */
  lemma AncestorGrows(segs: seq<bytes>, j: nat, sep: byte)
    requires j + 1 < |segs|
    ensures |Ancestor(segs, j, sep)| < |Ancestor(segs, j + 1, sep)|
  {
    assert segs[..j + 2][..j + 1] == segs[..j + 1];
    assert Join(segs[..j + 2], sep) == Join(segs[..j + 1], sep) + [sep] + segs[j + 1];
  }

  /** Ancestor j of the key is the join of its first j + 1 pieces and a separator. */
  lemma AncestorIsPrefix(segs: seq<bytes>, j: nat, sep: byte)
    requires |segs| >= 1 && j < NAncestors(segs)
    ensures var a := Join(segs[..j + 1], sep) + [sep];
      |a| < |Join(segs, sep)| && a == Join(segs, sep)[..|a|]
  {
    JoinAt(segs, j + 1, sep);
    var rest := segs[j + 1..];
    JoinLength(rest, sep);
    assert |rest| >= 2 || rest[|rest| - 1] != [];
  }

  lemma {:induction false} PathGrows(p: seq<bytes>, key: bytes, n: nat, i: nat, j: nat)
    requires |p| == n + 1 && i < j < |p|
    requires forall k :: 0 <= k < n ==> |p[k]| < |key|
    requires forall k :: 0 <= k < n - 1 ==> |p[k]| < |p[k + 1]|
    requires p[n] == key
    ensures |p[i]| < |p[j]|
    decreases j - i
  {
    if j > i + 1 {
      PathGrows(p, key, n, i + 1, j);
    }
  }

  /**
   * The step for one prefix: the container `parent` lists `child` once afterwards. A
   * missing parent becomes a new container; a parent that is not a container is an error.
   */
  function AddChild(items: Items, parent: bytes, child: bytes): (r: Result<Items, Error>)
    ensures r.Err? <==> parent in items && !items[parent].Container?
    ensures r.Ok? ==> r.value.Keys == items.Keys + {parent} && r.value[parent].Container?
                      && child in r.value[parent].children
                      && forall k :: k in items && k != parent ==> r.value[k] == items[k]
  {
    if parent in items then
      match items[parent]
      case Container(children) =>
        if child in children then Ok(items)
        else Ok(items[parent := Container(children + [child])])
      case _ => Err(Consistency)
    else Ok(items[parent := Container([child])])
  }

  /** The map and the result after an insertion, kept together because a failed
      insertion keeps the containers it created before the failure. */
  datatype Outcome = Outcome(items: Items, result: Result<(), Error>)

  /** The links from `path[j - 1]` to `path[j]` onwards, stopping at the first error. */
  function Walk(items: Items, path: seq<bytes>, j: nat): Outcome
    requires 1 <= j <= |path|
    decreases |path| - j
  {
    if j == |path| then Outcome(items, Ok(()))
    else match AddChild(items, path[j - 1], path[j])
      case Err(e) => Outcome(items, Err(e))
      case Ok(m) => Walk(m, path, j + 1)
  }

  /** `insert_item_value` on the map: link the path, then store the value under the key. */
  function Insert(items: Items, key: bytes, value: HashValue, sep: Option<byte>): Outcome
  {
    match sep
    case None => Outcome(items[key := value], Ok(()))
    case Some(s) => InsertAlong(items, Path(key, s), value)
  }

  /** Link the keys of a path, then store the value under its last key. */
  function InsertAlong(items: Items, path: seq<bytes>, value: HashValue): Outcome
    requires |path| >= 1
  {
    var w := Walk(items, path, 1);
    if w.result.Ok? then Outcome(w.items[path[|path| - 1] := value], Ok(())) else w
  }

  /** Keys of strictly growing length, as `PathSpec` shows a path's are. */
  predicate Growing(path: seq<bytes>)
  {
    forall a, b :: 0 <= a < b < |path| ==> |path[a]| < |path[b]|
  }

  /** A successful link moves the walk one key further. */
  lemma WalkStep(items: Items, path: seq<bytes>, j: nat)
    requires 1 <= j < |path| && AddChild(items, path[j - 1], path[j]).Ok?
    ensures Walk(items, path, j) == Walk(AddChild(items, path[j - 1], path[j]).value, path, j + 1)
  {
  }

  /** Linking from `path[j - 1]` on leaves every key off `path[j - 1..|path| - 1]` alone. */
  lemma {:induction false} WalkFrame(items: Items, path: seq<bytes>, j: nat, k: bytes)
    requires 1 <= j <= |path|
    requires forall i :: j - 1 <= i < |path| - 1 ==> path[i] != k
    ensures var w := Walk(items, path, j);
      (k in w.items <==> k in items) && (k in items ==> w.items[k] == items[k])
    decreases |path| - j
  {
    if j < |path| {
      var r := AddChild(items, path[j - 1], path[j]);
      if r.Ok? {
        WalkFrame(r.value, path, j + 1, k);
      }
    }
  }

  /**
   * Linking from `path[j - 1]` on fails exactly when one of the containers still to link
   * is present as something else.
   */
  lemma {:induction false} WalkFails(items: Items, path: seq<bytes>, j: nat)
    requires 1 <= j <= |path| && Growing(path)
    ensures Walk(items, path, j).result.Err? <==>
      exists i :: j - 1 <= i < |path| - 1 && path[i] in items && !items[path[i]].Container?
    decreases |path| - j
  {
    if j < |path| {
      var r := AddChild(items, path[j - 1], path[j]);
      if r.Ok? {
        var m := r.value;
        WalkFails(m, path, j + 1);
        forall i | j <= i < |path| - 1
          ensures path[i] in m && !m[path[i]].Container? <==> path[i] in items && !items[path[i]].Container?
        {
          assert |path[j - 1]| < |path[i]|;
        }
      }
    }
  }

  /** After a successful link from `path[j - 1]` on, each such key is a container listing the next. */
  lemma {:induction false} WalkLinks(items: Items, path: seq<bytes>, j: nat)
    requires 1 <= j <= |path| && Growing(path)
    ensures var w := Walk(items, path, j);
      w.result.Ok? ==> forall i :: j - 1 <= i < |path| - 1 ==>
        path[i] in w.items && w.items[path[i]].Container? && path[i + 1] in w.items[path[i]].children
    decreases |path| - j
  {
    if j < |path| {
      var r := AddChild(items, path[j - 1], path[j]);
      if r.Ok? {
        WalkLinks(r.value, path, j + 1);
        forall i | j <= i < |path| - 1 ensures path[i] != path[j - 1] {
          assert |path[j - 1]| < |path[i]|;
        }
        WalkFrame(r.value, path, j + 1, path[j - 1]);
      }
    }
  }

  /** `InsertSpec` for any path of growing keys. */
  lemma InsertAlongSpec(items: Items, path: seq<bytes>, value: HashValue)
    requires |path| >= 1 && Growing(path)
    ensures var o := InsertAlong(items, path, value);
      o.result.Err? <==> exists i :: 0 <= i < |path| - 1 && path[i] in items && !items[path[i]].Container?
    ensures var o := InsertAlong(items, path, value); var key := path[|path| - 1];
      o.result.Ok? ==>
        && key in o.items && o.items[key] == value
        && forall i :: 0 <= i < |path| - 1 ==>
             path[i] in o.items && o.items[path[i]].Container? && path[i + 1] in o.items[path[i]].children
    ensures var o := InsertAlong(items, path, value);
      forall k :: k !in path ==> (k in o.items <==> k in items) && (k in items ==> o.items[k] == items[k])
  {
    WalkFails(items, path, 1);
    WalkLinks(items, path, 1);
    forall k | k !in path
      ensures var o := InsertAlong(items, path, value);
        (k in o.items <==> k in items) && (k in items ==> o.items[k] == items[k])
    {
      WalkFrame(items, path, 1, k);
    }
    forall i | 0 <= i < |path| - 1 ensures path[i] != path[|path| - 1] {
      assert |path[i]| < |path[|path| - 1]|;
    }
  }

  /**
   * What `insert_item_value` does with a separator: it fails exactly when a proper prefix
   * of the key that ends with the separator holds a non-container; it then keeps the
   * containers it made before. On success the value is stored under the key and each
   * prefix is a container listing the next key of the path. Keys off the path keep
   * their values either way.
   */
  lemma InsertSpec(items: Items, key: bytes, value: HashValue, sep: byte)
    ensures var p := Path(key, sep); var o := Insert(items, key, value, Some(sep));
      o.result.Err? <==> exists i :: 0 <= i < |p| - 1 && p[i] in items && !items[p[i]].Container?
    ensures var p := Path(key, sep); var o := Insert(items, key, value, Some(sep));
      o.result.Ok? ==>
        && key in o.items && o.items[key] == value
        && forall i :: 0 <= i < |p| - 1 ==> p[i] in o.items && o.items[p[i]].Container? && p[i + 1] in o.items[p[i]].children
    ensures var p := Path(key, sep); var o := Insert(items, key, value, Some(sep));
      forall k :: k !in p ==> (k in o.items <==> k in items) && (k in items ==> o.items[k] == items[k])
  {
    PathSpec(key, sep);
    InsertAlongSpec(items, Path(key, sep), value);
  }

  /** Without a separator the key is stored as given, replacing any earlier value. */
  lemma InsertWithoutSeparator(items: Items, key: bytes, value: HashValue)
    ensures Insert(items, key, value, None) == Outcome(items[key := value], Ok(()))
  {
  }

  /** `HashTableBuilder`: the items by full key and the path separator. */
  class HashTableBuilder {
    var items: Items
    var pathSeparator: Option<byte>

    /** `HashTableBuilder::new`: no items, separator `/`. */
    constructor ()
      ensures items == map[] && pathSeparator == Some(SLASH)
    {
      items := map[];
      pathSeparator := Some(SLASH);
    }

    /** `with_path_separator` */
    constructor WithPathSeparator(sep: Option<byte>)
      ensures items == map[] && pathSeparator == sep
    {
      items := map[];
      pathSeparator := sep;
    }

    /** The value a `TableBuilder` item holds for this builder. */
    function Snapshot(): (v: HashValue)
      reads this
      ensures TableBuilderOf(v) == Some((items, pathSeparator))
    {
      TableBuilder(items, pathSeparator)
    }

    /** `len` */
    function Len(): (n: nat)
      reads this
      ensures n == |items.Keys|
    {
      |items|
    }

    /** `is_empty` */
    function IsEmpty(): (b: bool)
      reads this
      ensures b <==> forall k :: k !in items
    {
      assert forall k :: k in items ==> k in items.Keys;
      |items| == 0
    }

    /**
     * `insert_item_value`: walks the key's pieces, building each prefix key and linking it
     * into the container of the previous one, and stores the value at the full key.
     */
    method InsertItemValue(key: bytes, value: HashValue) returns (r: Result<(), Error>)
      modifies this
      ensures pathSeparator == old(pathSeparator)
      ensures Outcome(items, r) == Insert(old(items), key, value, pathSeparator)
    {
      if pathSeparator.None? {
        items := items[key := value];
        return Ok(());
      }
      var sep := pathSeparator.value;
      var segs := Split(key, sep);
      ghost var path := Path(key, sep);
      ghost var n := NAncestors(segs);
      PathAt(key, sep, n);
      var thisKey: bytes := [];
      var lastKey: Option<bytes> := None;
      var done := false;
      var j := 0;
      while j < |segs| && !done
        invariant pathSeparator == old(pathSeparator)
        invariant |path| == n + 1 && n < |segs| && path[n] == key
        invariant !done ==> j <= n
        invariant !done && j == 0 ==> thisKey == [] && lastKey == None && items == old(items)
        invariant !done && j > 0 ==> lastKey == Some(thisKey) && thisKey == path[j - 1]
                                     && Walk(items, path, j) == Walk(old(items), path, 1)
        invariant done ==> Outcome(items, Ok(())) == Insert(old(items), key, value, pathSeparator)
        decreases |segs| - j
      {
        VisitFacts(key, sep, j, thisKey);
        thisKey := thisKey + segs[j];
        if thisKey != key {
          thisKey := thisKey + [sep];
        }
        if lastKey.Some? {
          ghost var pre := items;
          var linked := LinkParent(lastKey.value, thisKey);
          if linked.Err? {
            return linked;
          }
          WalkStep(pre, path, j);
        }
        if key == thisKey {
          ghost var linked := items;
          assert Walk(linked, path, n + 1) == Outcome(linked, Ok(()));
          assert Walk(old(items), path, 1) == Outcome(linked, Ok(()));
          items := items[key := value];
          assert Insert(old(items), key, value, pathSeparator) == InsertAlong(old(items), path, value);
          done := true;
        } else {
          lastKey := Some(thisKey);
        }
        j := j + 1;
      }
      r := Ok(());
    }

    /** `insert_value` and its typed variants: a serialized value at the key. */
    method InsertValue(key: bytes, data: bytes) returns (r: Result<(), Error>)
      modifies this
      ensures pathSeparator == old(pathSeparator)
      ensures Outcome(items, r) == Insert(old(items), key, Value(data), pathSeparator)
    {
      r := InsertItemValue(key, Value(data));
    }

    /** `insert_table`: a nested builder, moved into the value, at the key. */
    method InsertTable(key: bytes, table: HashTableBuilder) returns (r: Result<(), Error>)
      modifies this
      ensures pathSeparator == old(pathSeparator)
      ensures Outcome(items, r) == Insert(old(items), key, old(table.Snapshot()), pathSeparator)
    {
      r := InsertItemValue(key, table.Snapshot());
    }

    /**
     * `build`: a table with one bucket per key, holding one item per key with the key's
     * value, and every container's children pointing back at it. It fails with a
     * consistency error exactly when some container lists a child that is not a key.
     */
    method Build() returns (r: Result<WriteHash.SimpleHashTable, Error>)
      ensures r.Ok? <==> ChildrenPresent(items)
      ensures r.Ok? ==> fresh(r.value) && Filled(r.value, items) && ParentsLinked(r.value)
      ensures r.Ok? ==> forall x :: x in r.value.ItemSet() ==> fresh(x)
      ensures r.Err? ==> r.error == Consistency
    {
      r := BuildTable(items);
    }

    /**
     * One step of `insert_item_value`'s loop: the previous prefix key becomes a container
     * listing the current one, unless it holds something else.
     */
    method LinkParent(parent: bytes, child: bytes) returns (r: Result<(), Error>)
      modifies this
      ensures pathSeparator == old(pathSeparator)
      ensures var a := AddChild(old(items), parent, child);
        (r.Err? <==> a.Err?) && (a.Ok? ==> items == a.value) && (a.Err? ==> items == old(items) && r == Err(a.error))
    {
      if parent in items {
        match items[parent]
        case Container(children) =>
          if child !in children {
            items := items[parent := Container(children + [child])];
          }
        case _ =>
          return Err(Consistency);
      } else {
        items := items[parent := Container([child])];
      }
      return Ok(());
    }
  }

  /**
   * The body of `build` for a builder holding `items`; a nested builder taken out of a
   * `TableBuilder` value is built the same way.
   */
  method BuildTable(items: Items) returns (r: Result<WriteHash.SimpleHashTable, Error>)
    ensures r.Ok? <==> ChildrenPresent(items)
    ensures r.Ok? ==> fresh(r.value) && Filled(r.value, items) && ParentsLinked(r.value)
    ensures r.Ok? ==> forall x :: x in r.value.ItemSet() ==> fresh(x)
    ensures r.Err? ==> r.error == Consistency
  {
    var table := new WriteHash.SimpleHashTable.WithNBuckets(|items|);
    WriteHash.ChainItemsEmpty(|items|);
    var keys := KeyOrder.SortedKeys(items.Keys);
    InsertSorted(table, items, keys);
    var linked := LinkParents(table, items);
    if linked.Err? {
      return Err(linked.error);
    }
    return Ok(table);
  }

  /** Every child a container lists is a key of the map. */
  ghost predicate ChildrenPresent(items: Items)
  {
    forall k, c :: k in items && items[k].Container? && c in items[k].children ==> c in items
  }

  /**
   * A table built from a map: one bucket and one item per key, exactly the map's keys find
   * an item, every chained item is the one its key finds, and it holds the key's value.
   */
  ghost predicate Filled(t: WriteHash.SimpleHashTable, m: Items)
    reads t, t.ItemSet()
  {
    t.Valid() && |t.buckets| == |m| && t.nItems == |m| && Keyed(t.buckets, m) && Valued(t.buckets, m)
  }

  /**
   * Exactly the map's keys find an item, each chained item is the one its key finds, and
   * each item carries its key's hash.
   */
  ghost predicate Keyed(bs: seq<WriteHash.Chain>, m: Items)
  {
    |bs| > 0 ==>
      (forall c :: WriteHash.LookupIn(bs, c).Some? <==> c in m)
      && (forall x :: x in WriteHash.ChainItems(bs) ==> WriteHash.LookupIn(bs, x.key) == Some(x))
      && (forall x :: x in WriteHash.ChainItems(bs) ==> x.hash == DjbHash(x.key))
  }

  /** Every chained item holds the value of its key. */
  ghost predicate Valued(bs: seq<WriteHash.Chain>, m: Items)
    reads WriteHash.ChainItems(bs)
  {
    forall x :: x in WriteHash.ChainItems(bs) ==> x.key in m && x.value == m[x.key]
  }

  /** Every parent is a chained container item that lists the child's key. */
  ghost predicate ParentsListed(bs: seq<WriteHash.Chain>)
    reads WriteHash.ChainItems(bs)
  {
    forall x {:trigger x.parent} :: x in WriteHash.ChainItems(bs) && x.parent.Some? ==>
      x.parent.value in WriteHash.ChainItems(bs) && x.parent.value.value.Container?
      && x.key in x.parent.value.value.children
  }

  /** The item of every child of a container item has a parent. */
  ghost predicate ChildrenLinked(bs: seq<WriteHash.Chain>)
    reads WriteHash.ChainItems(bs)
  {
    forall x, c :: x in WriteHash.ChainItems(bs) && x.value.Container? && c in x.value.children ==>
      |bs| > 0 && WriteHash.LookupIn(bs, c).Some? && WriteHash.LookupIn(bs, c).value in WriteHash.ChainItems(bs)
      && WriteHash.LookupIn(bs, c).value.parent.Some?
  }

  /**
   * Parent links after `build`: every child of a container item has a parent, and every
   * parent is a container item of the table that lists the child.
   */
  ghost predicate ParentsLinked(t: WriteHash.SimpleHashTable)
    reads t, t.ItemSet()
  {
    ParentsListed(t.buckets) && ChildrenLinked(t.buckets)
  }

  /**
   * `build`'s first loop: each key, in order, is taken out of the map and inserted. The
   * builder is consumed by `build`, so the map is read rather than emptied.
   */
  method InsertSorted(table: WriteHash.SimpleHashTable, m: Items, keys: seq<bytes>)
    requires table.Valid() && table.nItems == 0 && table.ItemSet() == {}
    requires |table.buckets| == |m| && |keys| == |m|
    requires KeyOrder.StrictlySorted(keys) && forall k :: k in keys <==> k in m
    modifies table
    ensures Filled(table, m)
    ensures forall x :: x in table.ItemSet() ==> fresh(x) && x.parent == None
  {
    var i := 0;
    while i < |keys|
      invariant i <= |keys|
      invariant table.Valid() && |table.buckets| == |m| && table.nItems == i
      invariant InsertedSoFar(table.buckets, m, keys[..i])
      invariant forall x :: x in WriteHash.ChainItems(table.buckets) ==> fresh(x)
    {
      var key := keys[i];
      NotYetInserted(keys, i);
      InsertNew(table, key, m[key], m, keys[..i]);
      KeyOrder.TakeOneMore(keys, i);
      i := i + 1;
    }
    assert keys[..i] == keys;
    InsertedKeyed(table.buckets, m, keys);
  }

  /** The keys before position i of a strictly sorted sequence do not include key i. */
  lemma NotYetInserted(keys: seq<bytes>, i: nat)
    requires KeyOrder.StrictlySorted(keys) && i < |keys|
    ensures keys[i] !in keys[..i]
  {
    if keys[i] in keys[..i] {
      var j :| 0 <= j < i && keys[j] == keys[i];
      KeyOrder.SortedDistinct(keys, j, i);
    }
  }

  /**
   * The state of `build`'s first loop after the keys `done` were inserted: each has its own
   * item, which holds its value and has no parent yet, and no other item is chained.
   */
  ghost predicate InsertedSoFar(bs: seq<WriteHash.Chain>, m: Items, done: seq<bytes>)
    reads WriteHash.ChainItems(bs)
  {
    (forall k :: k in done ==> |bs| > 0 && k in m && WriteHash.LookupIn(bs, k).Some?)
    && (forall x :: x in WriteHash.ChainItems(bs) ==>
          |bs| > 0 && x.key in done && WriteHash.LookupIn(bs, x.key) == Some(x)
          && x.key in m && x.value == m[x.key] && x.parent == None && x.hash == DjbHash(x.key))
  }

  /** One insertion of `build`'s first loop: a key not inserted yet gets a new item. */
  method InsertNew(table: WriteHash.SimpleHashTable, key: bytes, value: HashValue, ghost m: Items, ghost done: seq<bytes>)
    requires table.Valid() && |table.buckets| > 0 && InsertedSoFar(table.buckets, m, done)
    requires key !in done && key in m && value == m[key]
    modifies table
    ensures table.Valid() && |table.buckets| == old(|table.buckets|) && table.nItems == old(table.nItems) + 1
    ensures InsertedSoFar(table.buckets, m, done + [key])
    ensures forall x :: x in WriteHash.ChainItems(table.buckets) ==> x in old(WriteHash.ChainItems(table.buckets)) || fresh(x)
  {
    ghost var pre: seq<WriteHash.Chain> := table.buckets;
    ghost var b := table.HashBucket(DjbHash(key));
    if pre[b] != [] {
      WriteHash.InChainItems(pre, b, pre[b][0]);
    }
    var item := table.Insert(key, value);
    WriteHash.ChainItemsPush(pre, b, item);
    InsertedStep(pre, b, item, m, done);
  }

  /** Pushing the item of a key not inserted yet onto its bucket keeps the loop's state. */
  lemma InsertedStep(bs: seq<WriteHash.Chain>, b: nat, item: HashItemBuilder, m: Items, done: seq<bytes>)
    requires |bs| > 0 && b == BucketOf(DjbHash(item.key), |bs|)
    requires InsertedSoFar(bs, m, done) && item.key !in done
    requires item.key in m && item.value == m[item.key] && item.parent == None && item.hash == DjbHash(item.key)
    ensures InsertedSoFar(bs[b := WriteHash.Pushed(bs[b], item)], m, done + [item.key])
  {
    var bs' := bs[b := WriteHash.Pushed(bs[b], item)];
    WriteHash.ChainItemsPush(bs, b, item);
    WriteHash.PushedFinds(bs[b], item);
    var done' := done + [item.key];
    forall k | k in done' ensures k in m && WriteHash.LookupIn(bs', k).Some? {
      if k != item.key {
        PushKeeps(bs, b, item, k);
      }
    }
    forall x | x in WriteHash.ChainItems(bs')
      ensures x.key in done' && WriteHash.LookupIn(bs', x.key) == Some(x)
              && x.key in m && x.value == m[x.key] && x.parent == None && x.hash == DjbHash(x.key)
    {
      if x != item {
        PushKeeps(bs, b, item, x.key);
      }
    }
  }

  /** A push leaves what every other key finds unchanged. */
  lemma PushKeeps(bs: seq<WriteHash.Chain>, b: nat, item: HashItemBuilder, k: bytes)
    requires |bs| > 0 && b == BucketOf(DjbHash(item.key), |bs|) && k != item.key
    ensures WriteHash.LookupIn(bs[b := WriteHash.Pushed(bs[b], item)], k) == WriteHash.LookupIn(bs, k)
  {
    if BucketOf(DjbHash(k), |bs|) == b {
      WriteHash.PushedKeepsOthers(bs[b], item, k);
    }
  }

  /** The state `build`'s first loop ends in: every key was inserted, as its own item. */
  lemma InsertedKeyed(bs: seq<WriteHash.Chain>, m: Items, keys: seq<bytes>)
    requires |bs| == |m| && (forall k :: k in keys <==> k in m) && InsertedSoFar(bs, m, keys)
    ensures Keyed(bs, m) && Valued(bs, m)
  {
    forall c | |bs| > 0 && WriteHash.LookupIn(bs, c).Some? ensures c in m {
      WriteHash.LookupInItems(bs, c);
    }
  }

  /**
   * `build`'s second loop: for each item in `iter` order that is a container, the item of
   * each child gets the container as its parent; a child without an item is an error. The
   * loop walks `Entries`, the sequence `iter` yields.
   */
  method LinkParents(table: WriteHash.SimpleHashTable, ghost m: Items) returns (r: Result<(), Error>)
    requires Filled(table, m)
    requires forall x :: x in table.ItemSet() ==> x.parent == None
    modifies table.ItemSet()
    ensures Filled(table, m)
    ensures r.Ok? <==> ChildrenPresent(m)
    ensures r.Err? ==> r.error == Consistency
    ensures r.Ok? ==> ParentsLinked(table)
  {
    ghost var bs := table.buckets;
    WriteHash.ChainItemsAllocated(bs);
    var entries := table.Entries();
    ghost var linked: set<HashItemBuilder> := {};
    var i := 0;
    while i < |entries|
      invariant i <= |entries|
      invariant Valued(bs, m) && ParentsListed(bs)
      invariant Walked(bs, m, entries, i, linked)
      invariant linked <= WriteHash.ChainItems(bs) && forall x :: x in linked ==> x.parent.Some?
    {
      WriteHash.FlattenMember(bs, i);
      WriteHash.InChainItems(bs, entries[i].0, entries[i].1);
      r, linked := LinkEntry(table, entries, i, m, linked);
      if r.Err? {
        return;
      }
      i := i + 1;
    }
    LinkedAll(bs, m, linked);
    return Ok(());
  }

  /** The children of every container among the first i entries have linked items. */
  ghost predicate Walked(bs: seq<WriteHash.Chain>, m: Items, entries: seq<WriteHash.Entry>, i: nat,
                         linked: set<HashItemBuilder>)
    requires i <= |entries|
  {
    forall j :: 0 <= j < i ==> ChildrenLinkedAt(bs, m, entries[j].1.key, linked)
  }

  /**
   * One turn of `build`'s second loop: when the i-th item is a container, its children's
   * items get it as their parent, or the turn fails when a child has no item.
   */
  method LinkEntry(table: WriteHash.SimpleHashTable, entries: seq<WriteHash.Entry>, i: nat, ghost m: Items,
                   ghost linked: set<HashItemBuilder>)
    returns (r: Result<(), Error>, ghost linked': set<HashItemBuilder>)
    requires |table.buckets| == |m| && Keyed(table.buckets, m)
    requires i < |entries| && entries[i].1 in table.ItemSet()
    requires forall x :: x in table.ItemSet() ==> allocated(x)
    requires Valued(table.buckets, m) && ParentsListed(table.buckets)
    requires Walked(table.buckets, m, entries, i, linked)
    requires linked <= table.ItemSet() && forall x :: x in linked ==> x.parent.Some?
    modifies table.ItemSet()
    ensures Valued(table.buckets, m) && ParentsListed(table.buckets)
    ensures r.Ok? ==> Walked(table.buckets, m, entries, i + 1, linked')
    ensures linked' <= table.ItemSet() && forall x :: x in linked' ==> x.parent.Some?
    ensures r.Err? ==> r.error == Consistency && !ChildrenPresent(m)
  {
    ghost var bs := table.buckets;
    var item := entries[i].1;
    linked' := linked;
    r := Ok(());
    if item.value.Container? {
      var children := item.value.children;
      ghost var found: set<HashItemBuilder>;
      r, found := LinkChildren(table, item, children);
      forall x | x in WriteHash.ChainItems(bs) && x.parent.Some?
        ensures x.parent.value in WriteHash.ChainItems(bs) && x.parent.value.value.Container?
                && x.key in x.parent.value.value.children
      {
        if x.parent != old(x.parent) {
          assert x.parent == Some(item);
        }
      }
      forall x | x in linked ensures x.parent.Some? {
        assert x in WriteHash.ChainItems(bs) && old(x.parent).Some?;
      }
      if r.Err? {
        ghost var c :| c in children && WriteHash.LookupIn(bs, c).None?;
        KeyedFinds(bs, m, c);
        return;
      }
      linked' := linked + found;
      WalkedStep(bs, m, entries, i, linked, linked');
    } else {
      WalkedStep(bs, m, entries, i, linked, linked);
    }
  }

  /** Visiting the i-th entry with its children linked extends what was linked before it. */
  lemma WalkedStep(bs: seq<WriteHash.Chain>, m: Items, entries: seq<WriteHash.Entry>, i: nat,
                   linked: set<HashItemBuilder>, linked': set<HashItemBuilder>)
    requires i < |entries| && linked <= linked'
    requires Walked(bs, m, entries, i, linked) && ChildrenLinkedAt(bs, m, entries[i].1.key, linked')
    ensures Walked(bs, m, entries, i + 1, linked')
  {
  }

  /** Every child of the container at key k, if there is one, is a key whose item was linked. */
  ghost predicate ChildrenLinkedAt(bs: seq<WriteHash.Chain>, m: Items, k: bytes, linked: set<HashItemBuilder>)
  {
    k in m && m[k].Container? ==>
      forall c :: c in m[k].children ==>
        |bs| > 0 && WriteHash.LookupIn(bs, c).Some? && WriteHash.LookupIn(bs, c).value in linked
  }

  /** Once every entry was visited, each container's children have parents. */
  lemma LinkedAll(bs: seq<WriteHash.Chain>, m: Items, linked: set<HashItemBuilder>)
    requires |bs| == |m| && Keyed(bs, m) && Valued(bs, m)
    requires Walked(bs, m, WriteHash.Flatten(bs), |WriteHash.Flatten(bs)|, linked)
    requires forall x :: x in linked ==> x.parent.Some?
    ensures ChildrenPresent(m) && ChildrenLinked(bs)
  {
    ghost var entries := WriteHash.Flatten(bs);
    forall k | k in m ensures ChildrenLinkedAt(bs, m, k, linked) {
      WriteHash.LookupInItems(bs, k);
      WriteHash.ChainItemsAreEntries(bs, WriteHash.LookupIn(bs, k).value);
      ghost var j :| 0 <= j < |entries| && entries[j].1 == WriteHash.LookupIn(bs, k).value;
      assert entries[j].1.key == k;
    }
    forall x, c | x in WriteHash.ChainItems(bs) && x.value.Container? && c in x.value.children
      ensures |bs| > 0 && WriteHash.LookupIn(bs, c).Some? && WriteHash.LookupIn(bs, c).value in WriteHash.ChainItems(bs)
              && WriteHash.LookupIn(bs, c).value.parent.Some?
    {
      assert ChildrenLinkedAt(bs, m, x.key, linked);
      WriteHash.LookupInItems(bs, c);
    }
  }

  /** With the map's keys in the table, a key finds an item exactly when it is in the map. */
  lemma KeyedFinds(bs: seq<WriteHash.Chain>, m: Items, c: bytes)
    requires |bs| > 0 && Keyed(bs, m)
    ensures WriteHash.LookupIn(bs, c).Some? <==> c in m
  {
  }

  /**
   * The inner loop of `build`: each listed child's item gets `item` as its parent, until a
   * child has no item. Values are left alone.
   */
  method LinkChildren(table: WriteHash.SimpleHashTable, item: HashItemBuilder, children: seq<bytes>)
    returns (r: Result<(), Error>, ghost found: set<HashItemBuilder>)
    requires |table.buckets| > 0 && item in table.ItemSet()
    requires forall x :: x in table.ItemSet() ==> allocated(x)
    modifies table.ItemSet()
    ensures forall x :: x in table.ItemSet() ==>
              x.value == old(x.value) && (x.parent == old(x.parent) || (x.parent == Some(item) && x.key in children))
    ensures r.Ok? <==> forall c :: c in children ==> WriteHash.LookupIn(table.buckets, c).Some?
    ensures r.Err? ==> r.error == Consistency
    ensures found <= table.ItemSet() && forall x :: x in found ==> x.parent == Some(item)
    ensures r.Ok? ==> forall c :: c in children ==>
      WriteHash.LookupIn(table.buckets, c).Some? && WriteHash.LookupIn(table.buckets, c).value in found
  {
    ghost var bs := table.buckets;
    found := {};
    var i := 0;
    while i < |children|
      invariant i <= |children|
      invariant forall x :: x in WriteHash.ChainItems(bs) ==>
                  x.value == old(x.value) && (x.parent == old(x.parent) || (x.parent == Some(item) && x.key in children))
      invariant forall j :: 0 <= j < i ==> WriteHash.LookupIn(bs, children[j]).Some? && WriteHash.LookupIn(bs, children[j]).value in found
      invariant found <= WriteHash.ChainItems(bs) && forall x :: x in found ==> x.parent == Some(item)
    {
      var child := table.Get(children[i]);
      if child.None? {
        return Err(Consistency), found;
      }
      WriteHash.LookupInItems(bs, children[i]);
      child.value.SetParent(Some(item));
      found := found + {child.value};
      i := i + 1;
    }
    return Ok(()), found;
  }


  /**
   * One turn of `insert_item_value`'s loop: adding piece j to the previous path key, and the
   * separator unless that gives the key, yields path key j, which is the key exactly at
   * the last turn.
   */
  lemma VisitFacts(key: bytes, sep: byte, j: nat, t0: bytes)
    requires j <= NAncestors(Split(key, sep))
    requires j == 0 ==> t0 == []
    requires j > 0 ==> t0 == Path(key, sep)[j - 1]
    ensures var segs := Split(key, sep); var t := t0 + segs[j];
      var t' := if t != key then t + [sep] else t;
      t' == Path(key, sep)[j] && (t' == key <==> j == NAncestors(segs))
  {
    var segs := Split(key, sep);
    JoinSplit(key, sep);
    PathAt(key, sep, j);
    if j > 0 {
      PathAt(key, sep, j - 1);
    }
    StepKey(segs, j, sep, t0 + segs[j]);
  }

  /**
   * The key built from the pieces up to j: before the last path key it is shorter than the
   * key and becomes container key j with a separator added; at the last it is the key,
   * with or without the separator (the latter when the key ends with one).
   */
  lemma StepKey(segs: seq<bytes>, j: nat, sep: byte, t: bytes)
    requires |segs| >= 1 && j < |segs| && j <= NAncestors(segs)
    requires j == 0 ==> t == segs[0]
    requires j > 0 ==> t == Ancestor(segs, j - 1, sep) + segs[j]
    ensures t == Join(segs[..j + 1], sep)
    ensures j < NAncestors(segs) ==> t != Join(segs, sep) && t + [sep] == Ancestor(segs, j, sep) && t + [sep] != Join(segs, sep)
    ensures j == NAncestors(segs) ==> t == Join(segs, sep) || (t != Join(segs, sep) && t + [sep] == Join(segs, sep))
  {
    if j > 0 {
      assert segs[..j + 1][..j] == segs[..j];
    }
    if j < NAncestors(segs) {
      AncestorIsPrefix(segs, j, sep);
    } else if j + 1 < |segs| {
      JoinAt(segs, j + 1, sep);
      assert segs[j + 1..] == [[]];
    } else {
      assert segs[..j + 1] == segs;
    }
  }

  /** "a/b/c" splits at '/' into "a", "b", "c". */
  lemma SplitOfNestedKey(key: bytes)
    requires key == [97, 47, 98, 47, 99]
    ensures Split(key, SLASH) == [[97], [98], [99]]
  {
    var bc := key[2..];
    var c := bc[2..];
    assert c == [99] && SLASH !in c;
    assert Split(c, SLASH) == [c];
    assert IndexOf(bc, SLASH) == 1 && bc[..1] == [98];
    assert Split(bc, SLASH) == [[98], [99]];
    assert IndexOf(key, SLASH) == 1 && key[..1] == [97];
  }

  /** The path of "a/b/c" with separator '/' is "a/", "a/b/", "a/b/c". */
  lemma PathOfNestedKey(key: bytes)
    requires key == [97, 47, 98, 47, 99]
    ensures Path(key, SLASH) == [[97, 47], [97, 47, 98, 47], key]
  {
    SplitOfNestedKey(key);
    var segs := Split(key, SLASH);
    assert NAncestors(segs) == 2;
    var j1 := Join(segs[..1], SLASH);
    assert segs[..1] == [[97]];
    assert j1 == [97];
    var j2 := Join(segs[..2], SLASH);
    assert segs[..2][..1] == segs[..1];
    assert j2 == j1 + [SLASH] + [98];
    var anc := Ancestors(segs, SLASH, 2);
    assert anc[0] == j1 + [SLASH] && anc[1] == j2 + [SLASH];
    assert j2 == [97, 47, 98];
    assert anc[0] == [97, 47] && anc[1] == [97, 47, 98, 47];
    assert anc == [[97, 47], [97, 47, 98, 47]];
    assert Path(key, SLASH) == anc + [key];
    PathAt(key, SLASH, 2);
  }

  /**
   * Inserting "a/b/c" into an empty builder with separator '/' stores the value at "a/b/c"
   * and makes "a/" and "a/b/" containers that each list their direct child once.
   */
  lemma InsertNestedKey(v: HashValue)
    ensures Insert(map[], [97, 47, 98, 47, 99], v, Some(SLASH))
         == Outcome(map[[97, 47] := Container([[97, 47, 98, 47]]),
                        [97, 47, 98, 47] := Container([[97, 47, 98, 47, 99]]),
                        [97, 47, 98, 47, 99] := v], Ok(()))
  {
    var key: bytes := [97, 47, 98, 47, 99];
    PathOfNestedKey(key);
    var path: seq<bytes> := [[97, 47], [97, 47, 98, 47], key];
    var m1 := map[path[0] := Container([path[1]])];
    assert AddChild(map[], path[0], path[1]) == Ok(m1);
    var m2 := m1[path[1] := Container([path[2]])];
    assert AddChild(m1, path[1], path[2]) == Ok(m2);
    assert Walk(m2, path, 3) == Outcome(m2, Ok(()));
    assert Walk(m1, path, 2) == Walk(m2, path, 3);
    assert Walk(map[], path, 1) == Walk(m1, path, 2);
  }

  /** The path of "a/b" with separator '/' is "a/", "a/b". */
  lemma PathOfChildKey()
    ensures Path([97, 47, 98], SLASH) == [[97, 47], [97, 47, 98]]
  {
    var key: bytes := [97, 47, 98];
    var b: bytes := [98];
    assert SLASH !in b;
    assert Split(b, SLASH) == [b];
    assert IndexOf(key, SLASH) == 1 && key[..1] == [97] && key[2..] == b;
    var segs := Split(key, SLASH);
    assert segs == [[97], [98]];
    assert segs[..1] == [[97]];
    assert Ancestor(segs, 0, SLASH) == [97, 47];
  }

  /**
   * A key whose prefix "a/" already holds a value cannot be inserted below it: inserting
   * "a/b" after "a/" fails with a consistency error and leaves the map as it was.
   */
  lemma InsertBelowValueFails(v: HashValue, w: bytes)
    ensures Insert(map[[97, 47] := Value(w)], [97, 47, 98], v, Some(SLASH))
         == Outcome(map[[97, 47] := Value(w)], Err(Consistency))
  {
    PathOfChildKey();
  }
}
