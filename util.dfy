/**
 * Machine integers, little-endian byte images, the alignment rule of the writer and the
 * djb2 hash shared by the GVDB writer and reader (src/gvdb/util.rs).
 */
module GvdbUtil {
  type byte = b: int | 0 <= b < 0x100
  type u16 = x: int | 0 <= x < 0x1_0000
  type u32 = x: int | 0 <= x < 0x1_0000_0000
  type bytes = seq<byte>

  const U32_LIMIT: nat := 0x1_0000_0000
  const U32_MAX: u32 := 0xffff_ffff

  /** 256 to the power n: the number of values an n-byte integer can hold. */
  function Pow256(n: nat): (r: nat)
    ensures r >= 1
  {
    if n == 0 then 1 else 256 * Pow256(n - 1)
  }

  /** The n least significant bytes of x, least significant first (`to_le_bytes`). */
  function LeBytes(x: nat, n: nat): (r: bytes)
    ensures |r| == n
  {
    if n == 0 then [] else [x % 256] + LeBytes(x / 256, n - 1)
  }

  /** The unsigned integer whose little-endian image is b (`from_le_bytes`). */
  function FromLe(b: bytes): (r: nat)
    ensures r < Pow256(|b|)
  {
    if |b| == 0 then 0 else b[0] + 256 * FromLe(b[1..])
  }

  lemma {:induction false} FromLeOfLeBytes(x: nat, n: nat)
    requires x < Pow256(n)
    ensures FromLe(LeBytes(x, n)) == x
  {
    if n > 0 {
      var t := LeBytes(x, n);
      assert t[1..] == LeBytes(x / 256, n - 1);
      FromLeOfLeBytes(x / 256, n - 1);
    }
  }

  lemma {:induction false} LeBytesOfFromLe(b: bytes)
    ensures LeBytes(FromLe(b), |b|) == b
  {
    if |b| > 0 {
      var x := FromLe(b);
      assert x % 256 == b[0];
      assert x / 256 == FromLe(b[1..]);
      LeBytesOfFromLe(b[1..]);
    }
  }

  /** `u32::to_le_bytes` */
  function LeBytes32(x: u32): (r: bytes)
    ensures |r| == 4
  {
    LeBytes(x, 4)
  }

  /** `u32::from_le_bytes` */
  function FromLe32(b: bytes): (r: u32)
    requires |b| == 4
  {
    assert Pow256(4) == U32_LIMIT;
    FromLe(b)
  }

  lemma LeBytes32RoundTrip(x: u32)
    ensures FromLe32(LeBytes32(x)) == x
  {
    assert Pow256(4) == U32_LIMIT;
    FromLeOfLeBytes(x, 4);
  }

  lemma FromLe32RoundTrip(b: bytes)
    requires |b| == 4
    ensures LeBytes32(FromLe32(b)) == b
  {
    LeBytesOfFromLe(b);
  }

  /** Reversal of a byte string, used for the big-endian image. */
  function Reverse(s: bytes): (r: bytes)
    ensures |r| == |s|
    ensures forall i :: 0 <= i < |s| ==> r[i] == s[|s| - 1 - i]
  {
    if s == [] then [] else Reverse(s[1..]) + [s[0]]
  }

  lemma {:induction false} ReverseReverse(s: bytes)
    ensures Reverse(Reverse(s)) == s
  {
    var r := Reverse(Reverse(s));
    assert |r| == |s|;
    forall i | 0 <= i < |s| ensures r[i] == s[i] {
      assert r[i] == Reverse(s)[|s| - 1 - i];
    }
  }

  /** `u32::swap_bytes` */
  function Swap32(x: u32): (r: u32)
  {
    FromLe32(Reverse(LeBytes32(x)))
  }

  lemma Swap32Image(x: u32)
    ensures LeBytes32(Swap32(x)) == Reverse(LeBytes32(x))
  {
    FromLe32RoundTrip(Reverse(LeBytes32(x)));
  }

  lemma Swap32Involution(x: u32)
    ensures Swap32(Swap32(x)) == x
  {
    Swap32Image(x);
    ReverseReverse(LeBytes32(x));
    LeBytes32RoundTrip(x);
  }

  /** A power of two: the alignments a bit mask `x & (a - 1)` can test. */
  predicate IsPowerOfTwo(n: nat)
    decreases n
  {
    n == 1 || (n >= 2 && n % 2 == 0 && IsPowerOfTwo(n / 2))
  }

  /** The alignments the writer and reader use (powers of two up to 8). */
  predicate IsAlignment(a: nat) { a == 1 || a == 2 || a == 4 || a == 8 }

  /** Round `offset` up to the next multiple of `alignment` (`align_offset`). */
  function AlignOffset(offset: nat, alignment: nat): (r: nat)
    requires IsAlignment(alignment)
    ensures r % alignment == 0 && offset <= r < offset + alignment
  {
    if offset % alignment == 0 then offset else offset + (alignment - offset % alignment)
  }

  /** AlignOffset is the least multiple of the alignment that is not below the offset. */
  lemma AlignOffsetLeast(offset: nat, alignment: nat, m: nat)
    requires IsAlignment(alignment) && m % alignment == 0 && m >= offset
    ensures AlignOffset(offset, alignment) <= m
  {
  }

  /** `u32::wrapping_mul` */
  function WrappingMul(a: u32, b: u32): u32 { (a * b) % U32_LIMIT }

  /** `u32::wrapping_add` */
  function WrappingAdd(a: u32, b: u32): u32 { (a + b) % U32_LIMIT }

  const DJB_INITIAL: u32 := 5381

  /** One step of djb2: multiply by 33 and add the byte, both wrapping at 2^32. */
  function DjbStep(h: u32, b: byte): u32
  {
    WrappingAdd(WrappingMul(h, 33), b)
  }

  /** The djb2 fold from state h over the bytes of s, first byte first. */
  function DjbFold(h: u32, s: bytes): u32
    decreases |s|
  {
    if s == [] then h else DjbFold(DjbStep(h, s[0]), s[1..])
  }

  /** `djb_hash`: the fold from 5381 over the UTF-8 bytes of the key. */
  function DjbHash(key: bytes): u32
  {
    DjbFold(DJB_INITIAL, key)
  }

  /** Hashing a concatenation continues the fold from the hash of the first part. */
  lemma {:induction false} DjbFoldAppend(h: u32, a: bytes, b: bytes)
    ensures DjbFold(h, a + b) == DjbFold(DjbFold(h, a), b)
    decreases |a|
  {
    if a != [] {
      assert (a + b)[0] == a[0] && (a + b)[1..] == a[1..] + b;
      DjbFoldAppend(DjbStep(h, a[0]), a[1..], b);
    } else {
      assert a + b == b;
    }
  }

  lemma DjbHashEmpty()
    ensures DjbHash([]) == 5381
  {
  }

  /** Appending one byte performs exactly one wrapping multiply-add on the hash. */
  lemma DjbHashSnoc(s: bytes, b: byte)
    ensures DjbHash(s + [b]) == (DjbHash(s) * 33 + b) % U32_LIMIT
  {
    DjbFoldAppend(DJB_INITIAL, s, [b]);
    var h := DjbHash(s);
    calc {
      DjbStep(h, b);
      ((h * 33) % U32_LIMIT + b) % U32_LIMIT;
      { ModAddLeft(h * 33, b); }
      (h * 33 + b) % U32_LIMIT;
    }
  }

  lemma ModAddLeft(a: nat, b: nat)
    ensures (a % U32_LIMIT + b) % U32_LIMIT == (a + b) % U32_LIMIT
  {
  }

  /** The loop of `djb_hash`, proved to compute the fold. */
  method DjbHashLoop(key: bytes) returns (hashValue: u32)
    ensures hashValue == DjbHash(key)
  {
    hashValue := 5381;
    var i := 0;
    while i < |key|
      invariant 0 <= i <= |key|
      invariant hashValue == DjbHash(key[..i])
    {
      DjbFoldAppend(DJB_INITIAL, key[..i], [key[i]]);
      assert key[..i + 1] == key[..i] + [key[i]];
      hashValue := WrappingAdd(WrappingMul(hashValue, 33), key[i]);
      i := i + 1;
    }
    assert key[..i] == key;
  }

  /** The bucket of a hash in a table with n buckets, as writer and reader compute it. */
  function BucketOf(hash: u32, nBuckets: nat): (b: nat)
    requires nBuckets > 0
    ensures b < nBuckets
  {
    hash % nBuckets
  }
}
