/**
 * The order `build` inserts keys in (gvdb/src/write/file.rs, `keys.sort()`): Rust orders
 * `String`s by their UTF-8 bytes, lexicographically, a proper prefix first.
 */
module KeyOrder {
  import opened GvdbUtil

  /** Byte-wise lexicographic order on keys. */
  predicate LexLess(a: bytes, b: bytes)
  {
    if a == [] then b != []
    else if b == [] then false
    else a[0] < b[0] || (a[0] == b[0] && LexLess(a[1..], b[1..]))
  }

  lemma {:induction false} LexIrreflexive(a: bytes)
    ensures !LexLess(a, a)
  {
    if a != [] {
      LexIrreflexive(a[1..]);
    }
  }

  lemma {:induction false} LexTransitive(a: bytes, b: bytes, c: bytes)
    requires LexLess(a, b) && LexLess(b, c)
    ensures LexLess(a, c)
  {
    if a != [] && a[0] == b[0] && b[0] == c[0] {
      LexTransitive(a[1..], b[1..], c[1..]);
    }
  }

  /** Two different keys are ordered one way or the other. */
  lemma {:induction false} LexTotal(a: bytes, b: bytes)
    requires a != b
    ensures LexLess(a, b) || LexLess(b, a)
  {
    if a != [] && b != [] && a[0] == b[0] {
      assert a == [a[0]] + a[1..] && b == [b[0]] + b[1..];
      LexTotal(a[1..], b[1..]);
    }
  }

  /** Every non-empty set of keys has a least key. */
  lemma {:induction false} LexMinimum(s: set<bytes>) returns (m: bytes)
    requires s != {}
    ensures m in s && forall o :: o in s && o != m ==> LexLess(m, o)
    decreases |s|
  {
    var x :| x in s;
    if s == {x} {
      return x;
    }
    var m' := LexMinimum(s - {x});
    if LexLess(x, m') {
      forall o | o in s && o != x ensures LexLess(x, o) {
        if o != m' {
          LexTransitive(x, m', o);
        }
      }
      return x;
    }
    LexTotal(x, m');
    return m';
  }

  /** Strictly increasing: sorted, and so without repeats. */
  predicate StrictlySorted(ks: seq<bytes>)
  {
    forall i, j :: 0 <= i < j < |ks| ==> LexLess(ks[i], ks[j])
  }

  lemma SortedDistinct(ks: seq<bytes>, i: nat, j: nat)
    requires StrictlySorted(ks) && i < j < |ks|
    ensures ks[i] != ks[j]
  {
    LexIrreflexive(ks[i]);
  }

  /**
   * `keys.sort()` on the map's keys: the keys in increasing order, each exactly once. The
   * library sort is modelled by repeatedly taking the least remaining key.
   */
  method SortedKeys(s: set<bytes>) returns (r: seq<bytes>)
    ensures StrictlySorted(r) && |r| == |s|
    ensures forall k :: k in r <==> k in s
  {
    var rest := s;
    r := [];
    while rest != {}
      invariant rest <= s && |r| + |rest| == |s|
      invariant forall k :: k in r <==> k in s && k !in rest
      invariant StrictlySorted(r)
      invariant forall i, o :: 0 <= i < |r| && o in rest ==> LexLess(r[i], o)
      decreases |rest|
    {
      ghost var least := LexMinimum(rest);
      var m :| m in rest && forall o :: o in rest && o != m ==> LexLess(m, o);
      forall i, o | 0 <= i < |r| && o in rest - {m} ensures LexLess(r[i], o) && LexLess((r + [m])[i], o) {
        LexTransitive(r[i], m, o);
      }
      r := r + [m];
      rest := rest - {m};
    }
  }

  /** The first i + 1 keys are the first i and then key i. */
  lemma TakeOneMore(ks: seq<bytes>, i: nat)
    requires i < |ks|
    ensures ks[..i + 1] == ks[..i] + [ks[i]]
  {
  }

  /** "a" < "a/" < "a/b" < "b": a prefix sorts before its extensions. */
  lemma {:induction false} PrefixFirst(a: bytes, b: bytes)
    requires |a| < |b| && a == b[..|a|]
    ensures LexLess(a, b)
  {
    if a != [] {
      assert a[1..] == b[1..][..|a| - 1];
      PrefixFirst(a[1..], b[1..]);
    }
  }
}
