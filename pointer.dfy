/**
 * A pointer into a GVDB file: the half-open byte range [start, end) (gvdb/src/read/pointer.rs).
 * The two fields are stored with `to_le`, so their bytes are little endian on every host; the
 * model keeps the values the accessors `start()` and `end()` return.
 */
module ReadPointer {
  import opened GvdbUtil
  import Endian

  datatype Pointer = Pointer(start: u32, end: u32)

  /** `Pointer::NULL` */
  const NULL: Pointer := Pointer(0, 0)

  /** `Pointer::new`: both offsets are truncated to 32 bits (`as u32`). */
  function New(start: nat, end: nat): (p: Pointer)
    ensures start < U32_LIMIT ==> p.start == start
    ensures end < U32_LIMIT ==> p.end == end
  {
    Pointer(start % U32_LIMIT, end % U32_LIMIT)
  }

  /** `Pointer::size`: the length of the range, 0 (and no panic) when start lies past end. */
  function Size(p: Pointer): (r: nat)
    ensures p.start <= p.end ==> p.start + r == p.end
    ensures p.start > p.end ==> r == 0
  {
    if p.start <= p.end then p.end - p.start else 0
  }

  lemma NullIsEmpty()
    ensures NULL.start == 0 && NULL.end == 0 && Size(NULL) == 0
    ensures New(0, 0) == NULL
  {
  }

  /** The test `no_panic_invalid_size`: a reversed pointer has size 0. */
  lemma ReversedPointerHasSizeZero()
    ensures Size(New(100, 0)) == 0
  {
  }

  /** The 8 bytes of a pointer in a file: start then end, little endian. */
  function Encode(p: Pointer): (r: bytes)
    ensures |r| == 8
  {
    LeBytes32(p.start) + LeBytes32(p.end)
  }

  function Decode(b: bytes): Pointer
    requires |b| == 8
  {
    Pointer(FromLe32(b[..4]), FromLe32(b[4..]))
  }

  /** The in-memory image of the struct, whose fields hold `start.to_le()` and `end.to_le()`. */
  function MemoryImage(p: Pointer, host: Endian.Endian): (r: bytes)
  {
    Endian.NativeBytes(Endian.ToLe(p.start, host), host) + Endian.NativeBytes(Endian.ToLe(p.end, host), host)
  }

  /** The bytes of a pointer do not depend on the host that wrote it. */
  lemma MemoryImageIsEncode(p: Pointer, host: Endian.Endian)
    ensures MemoryImage(p, host) == Encode(p)
  {
    Endian.ToLeImage(p.start, host);
    Endian.ToLeImage(p.end, host);
  }

  lemma DecodeEncode(p: Pointer)
    ensures Decode(Encode(p)) == p
  {
    var b := Encode(p);
    assert b[..4] == LeBytes32(p.start) && b[4..] == LeBytes32(p.end);
    LeBytes32RoundTrip(p.start);
    LeBytes32RoundTrip(p.end);
  }

  lemma EncodeDecode(b: bytes)
    requires |b| == 8
    ensures Encode(Decode(b)) == b
  {
    FromLe32RoundTrip(b[..4]);
    FromLe32RoundTrip(b[4..]);
    assert b[..4] + b[4..] == b;
  }
}
