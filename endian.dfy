/**
 * Byte orders (gvdb/src/endian.rs). The host's own order, `Endian::NATIVE`, is a compile-time
 * constant in the source; here it is a parameter `native` of every member that depends on it.
 * The module also says how a host lays a 32-bit word out in memory, which decides the bytes
 * of every struct the source transmutes to and from bytes.
 */
module Endian {
  import opened GvdbUtil

  datatype Endian = Little | Big

  /** `impl Not for Endian` */
  function Not(e: Endian): (r: Endian)
    ensures r != e
  {
    match e
    case Little => Big
    case Big => Little
  }

  /** `Endian::is_native` */
  predicate IsNative(e: Endian, native: Endian)
  {
    e == native
  }

  /** `Endian::is_byteswap` */
  predicate IsByteswap(e: Endian, native: Endian)
  {
    e != native
  }

  lemma NotInvolution(e: Endian)
    ensures Not(Not(e)) == e
  {
  }

  /** The two orders are each other's negation. */
  lemma NotIsTheOtherOrder()
    ensures Not(Little) == Big && Not(Big) == Little
  {
  }

  /** Every order is exactly one of native and byte-swapped, on either host. */
  lemma ByteswapIsNotNative(e: Endian, native: Endian)
    ensures IsByteswap(e, native) == !IsNative(e, native)
    ensures IsNative(native, native) && IsByteswap(Not(native), native)
    ensures IsNative(Not(Not(native)), native)
  {
  }

  /** The bytes of a u32 as a host of order `host` keeps it in memory. */
  function NativeBytes(x: u32, host: Endian): (r: bytes)
    ensures |r| == 4
  {
    if host == Little then LeBytes32(x) else Reverse(LeBytes32(x))
  }

  /** The u32 a host of order `host` reads from four bytes of memory. */
  function FromNativeBytes(b: bytes, host: Endian): (r: u32)
    requires |b| == 4
  {
    if host == Little then FromLe32(b) else FromLe32(Reverse(b))
  }

  /** `u32::to_le`: identity on a little-endian host, a byte swap on a big-endian one. */
  function ToLe(x: u32, host: Endian): u32
  {
    if host == Little then x else Swap32(x)
  }

  /** `u32::from_le`, the same operation as `to_le`. */
  function FromLeWord(x: u32, host: Endian): u32
  {
    ToLe(x, host)
  }

  lemma FromLeToLe(x: u32, host: Endian)
    ensures FromLeWord(ToLe(x, host), host) == x
  {
    if host == Big { Swap32Involution(x); }
  }

  /** A field that holds `x.to_le()` occupies the little-endian bytes of x on every host. */
  lemma ToLeImage(x: u32, host: Endian)
    ensures NativeBytes(ToLe(x, host), host) == LeBytes32(x)
  {
    if host == Big {
      Swap32Image(x);
      ReverseReverse(LeBytes32(x));
    }
  }

  lemma NativeRoundTrip(x: u32, host: Endian)
    ensures FromNativeBytes(NativeBytes(x, host), host) == x
  {
    LeBytes32RoundTrip(x);
    if host == Big { ReverseReverse(LeBytes32(x)); }
  }

  lemma NativeRoundTripBytes(b: bytes, host: Endian)
    requires |b| == 4
    ensures NativeBytes(FromNativeBytes(b, host), host) == b
  {
    if host == Little {
      FromLe32RoundTrip(b);
    } else {
      FromLe32RoundTrip(Reverse(b));
      ReverseReverse(b);
    }
  }

  /** A native word written by one host and read by a host of the other order comes out swapped. */
  lemma CrossHostRead(x: u32, host: Endian)
    ensures FromNativeBytes(NativeBytes(x, host), Not(host)) == Swap32(x)
  {
    if host == Big { ReverseReverse(LeBytes32(x)); }
  }
}
