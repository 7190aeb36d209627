/**
 * Well-formed UTF-8, as `String::from_utf8` and `str::from_utf8` accept it: shortest
 * encodings only, no surrogates, nothing above U+10FFFF. The GVDB reader turns stored key
 * bytes into strings with these rules, and the no_glib variant code uses them for `str()`.
 */
module Utf8 {
  import opened GvdbUtil

  /** The encoded width announced by a leading byte, 0 when the byte cannot lead. */
  function CharWidth(b0: byte): nat
  {
    if b0 < 0x80 then 1
    else if 0xC2 <= b0 <= 0xDF then 2
    else if 0xE0 <= b0 <= 0xEF then 3
    else if 0xF0 <= b0 <= 0xF4 then 4
    else 0
  }

  predicate IsContinuation(b: byte) { 0x80 <= b <= 0xBF }

  /** The bytes after the lead byte of one character, with the lead-specific second-byte ranges. */
  predicate ValidTail(c: bytes)
    requires 1 <= |c| <= 4
  {
    if |c| == 1 then true
    else if |c| == 2 then IsContinuation(c[1])
    else if |c| == 3 then
      (if c[0] == 0xE0 then 0xA0 <= c[1] <= 0xBF
       else if c[0] == 0xED then 0x80 <= c[1] <= 0x9F
       else IsContinuation(c[1]))
      && IsContinuation(c[2])
    else
      (if c[0] == 0xF0 then 0x90 <= c[1] <= 0xBF
       else if c[0] == 0xF4 then 0x80 <= c[1] <= 0x8F
       else IsContinuation(c[1]))
      && IsContinuation(c[2]) && IsContinuation(c[3])
  }

  /** s is a sequence of well-formed UTF-8 characters. */
  predicate ValidUtf8(s: bytes)
    decreases |s|
  {
    s == [] ||
    (var w := CharWidth(s[0]);
     0 < w <= |s| && ValidTail(s[..w]) && ValidUtf8(s[w..]))
  }

  /** Every byte after the lead of a well-formed character is a continuation byte. */
  lemma TailBytesAreContinuations(c: bytes, i: nat)
    requires 1 <= |c| <= 4 && ValidTail(c) && 0 < i < |c|
    ensures IsContinuation(c[i])
  {
  }

  /** The concatenation of two well-formed strings is well formed. */
  lemma {:induction false} ConcatValid(a: bytes, b: bytes)
    requires ValidUtf8(a) && ValidUtf8(b)
    ensures ValidUtf8(a + b)
    decreases |a|
  {
    if a == [] {
      assert a + b == b;
    } else {
      var w := CharWidth(a[0]);
      assert (a + b)[0] == a[0];
      assert (a + b)[..w] == a[..w];
      assert (a + b)[w..] == a[w..] + b;
      ConcatValid(a[w..], b);
    }
  }

  /**
   * What follows a well-formed prefix inside a well-formed string is well formed: the
   * stored key of a GVDB item, which is its full key with the parent's key removed.
   */
  lemma {:induction false} SuffixValid(a: bytes, b: bytes)
    requires ValidUtf8(a) && ValidUtf8(a + b)
    ensures ValidUtf8(b)
    decreases |a|
  {
    if a == [] {
      assert a + b == b;
    } else {
      var w := CharWidth(a[0]);
      assert (a + b)[0] == a[0];
      assert (a + b)[..w] == a[..w];
      assert (a + b)[w..] == a[w..] + b;
      SuffixValid(a[w..], b);
    }
  }

  /**
   * When a well-formed string ends with a well-formed string, the cut between them falls on
   * a character boundary: what precedes it is well formed too.
   */
  lemma {:induction false} PrefixValid(a: bytes, b: bytes)
    requires ValidUtf8(a + b) && ValidUtf8(b)
    ensures ValidUtf8(a)
    decreases |a|
  {
    if a != [] {
      var s := a + b;
      var w := CharWidth(s[0]);
      assert s[0] == a[0];
      if w > |a| {
        // the suffix would start inside the first character, on a continuation byte
        assert s[|a|] == b[0];
        TailBytesAreContinuations(s[..w], |a|);
        assert false;
      }
      assert s[..w] == a[..w];
      assert s[w..] == a[w..] + b;
      PrefixValid(a[w..], b);
      assert a[..w] + a[w..] == a;
    }
  }

  /** Every ASCII string is well formed. */
  lemma {:induction false} AsciiValid(s: bytes)
    requires forall i :: 0 <= i < |s| ==> s[i] < 0x80
    ensures ValidUtf8(s)
    decreases |s|
  {
    if s != [] {
      AsciiValid(s[1..]);
    }
  }
}
