/**
 * The 24-byte GVDB file header (gvdb/src/read/header.rs): two signature words, the version,
 * the options word and the root pointer. The signature words are kept in the host's own order
 * (swapped when the file is written byte-swapped), so their bytes depend on the host; the
 * version is stored with `to_le`, and `version()` returns the stored word unconverted.
 */
module ReadHeader {
  import opened GvdbUtil
  import opened Wrappers
  import opened ReadError
  import Endian
  import ReadPointer

  /** "GVar" read as a little-endian word. */
  const SIGNATURE0: u32 := 1918981703
  /** "iant" read as a little-endian word. */
  const SIGNATURE1: u32 := 1953390953

  const HEADER_SIZE: nat := 24

  /** The header as it sits in memory: every field is the raw stored word. */
  datatype Header = Header(
    signature0: u32,
    signature1: u32,
    version: u32,
    options: u32,
    root: ReadPointer.Pointer)

  /** `Header::new` on a host of order `host`. */
  function New(byteswap: bool, version: u32, root: ReadPointer.Pointer, host: Endian.Endian): (h: Header)
    ensures h.options == 0 && h.root == root
    ensures Endian.FromLeWord(h.version, host) == version
  {
    Endian.FromLeToLe(version, host);
    var sig0 := if !byteswap then SIGNATURE0 else Swap32(SIGNATURE0);
    var sig1 := if !byteswap then SIGNATURE1 else Swap32(SIGNATURE1);
    Header(sig0, sig1, Endian.ToLe(version, host), 0, root)
  }

  /** The signature words' bytes in little-endian order: "GVar" and "iant". */
  lemma SignatureBytes()
    ensures LeBytes32(SIGNATURE0) == [71, 86, 97, 114]
    ensures LeBytes32(SIGNATURE1) == [105, 97, 110, 116]
  {
    assert LeBytes32(SIGNATURE0) == [71, 86, 97, 114];
    assert LeBytes32(SIGNATURE1) == [105, 97, 110, 116];
  }

  lemma SwappedSignature0()
    ensures Swap32(SIGNATURE0) == 1196843378
  {
    SignatureBytes();
    assert Reverse([71, 86, 97, 114]) == [114, 97, 86, 71];
    assert FromLe32([114, 97, 86, 71]) == 1196843378;
  }

  lemma SwappedSignature1()
    ensures Swap32(SIGNATURE1) == 1767992948
  {
    SignatureBytes();
    assert Reverse([105, 97, 110, 116]) == [116, 110, 97, 105];
    assert FromLe32([116, 110, 97, 105]) == 1767992948;
  }

  /** The signature pair with both words byte-swapped. */
  lemma SwappedSignatures()
    ensures Swap32(SIGNATURE0) == 1196843378 && Swap32(SIGNATURE1) == 1767992948
  {
    SwappedSignature0();
    SwappedSignature1();
  }

  /** `Header::is_byteswap`: plain signature, fully swapped signature, or an error. */
  function IsByteswap(h: Header): (r: Result<bool, Error>)
    ensures r == Ok(false) <==> h.signature0 == SIGNATURE0 && h.signature1 == SIGNATURE1
    ensures r == Ok(true) <==> h.signature0 == Swap32(SIGNATURE0) && h.signature1 == Swap32(SIGNATURE1)
  {
    SwappedSignatures();
    if h.signature0 == SIGNATURE0 && h.signature1 == SIGNATURE1 then Ok(false)
    else if h.signature0 == Swap32(SIGNATURE0) && h.signature1 == Swap32(SIGNATURE1) then Ok(true)
    else Err(Data(InvalidSignature))
  }

  /** `Header::header_valid` */
  predicate HeaderValid(h: Header)
  {
    IsByteswap(h).Ok?
  }

  /** `Header::version`: the stored word, without `from_le`. */
  function Version(h: Header): u32
  {
    h.version
  }

  /** `Header::root` */
  function Root(h: Header): ReadPointer.Pointer
  {
    h.root
  }

  /** The byte order is read back from a header built for it. */
  lemma IsByteswapOfNew(byteswap: bool, version: u32, root: ReadPointer.Pointer, host: Endian.Endian)
    ensures IsByteswap(New(byteswap, version, root, host)) == Ok(byteswap)
    ensures HeaderValid(New(byteswap, version, root, host))
  {
    SwappedSignatures();
  }

  /** The stored version is 0 exactly when the version passed in is 0, on either host. */
  lemma VersionZero(version: u32, root: ReadPointer.Pointer, byteswap: bool, host: Endian.Endian)
    ensures Version(New(byteswap, version, root, host)) == 0 <==> version == 0
  {
    var h := New(byteswap, version, root, host);
    if host == Endian.Big {
      Swap32Involution(version);
      Swap32Involution(0);
      assert Swap32(0) == 0 by { assert LeBytes32(0) == [0, 0, 0, 0]; }
    }
  }

  /** The 24 bytes of a header on a host of order `host`. */
  function Encode(h: Header, host: Endian.Endian): (r: bytes)
    ensures |r| == HEADER_SIZE
  {
    Endian.NativeBytes(h.signature0, host) + Endian.NativeBytes(h.signature1, host)
    + Endian.NativeBytes(h.version, host) + Endian.NativeBytes(h.options, host)
    + ReadPointer.Encode(h.root)
  }

  /** A header read from 24 bytes on a host of order `host` (`transmute_one_pedantic`). */
  function Decode(b: bytes, host: Endian.Endian): Header
    requires |b| == HEADER_SIZE
  {
    Header(
      Endian.FromNativeBytes(b[0..4], host), Endian.FromNativeBytes(b[4..8], host),
      Endian.FromNativeBytes(b[8..12], host), Endian.FromNativeBytes(b[12..16], host),
      ReadPointer.Decode(b[16..24]))
  }

  /** The five fields of a header's bytes sit at 0, 4, 8, 12 and 16. */
  lemma Fields(s0: bytes, s1: bytes, v: bytes, o: bytes, root: bytes)
    requires |s0| == |s1| == |v| == |o| == 4 && |root| == 8
    ensures var b := s0 + s1 + v + o + root;
            b[0..4] == s0 && b[4..8] == s1 && b[8..12] == v && b[12..16] == o && b[16..24] == root
  {
    var b := s0 + s1 + v + o + root;
    assert b[..16] == s0 + s1 + v + o;
    assert b[..12] == s0 + s1 + v;
    assert b[..8] == s0 + s1;
  }

  lemma DecodeEncode(h: Header, host: Endian.Endian)
    ensures Decode(Encode(h, host), host) == h
  {
    Fields(Endian.NativeBytes(h.signature0, host), Endian.NativeBytes(h.signature1, host),
           Endian.NativeBytes(h.version, host), Endian.NativeBytes(h.options, host),
           ReadPointer.Encode(h.root));
    Endian.NativeRoundTrip(h.signature0, host);
    Endian.NativeRoundTrip(h.signature1, host);
    Endian.NativeRoundTrip(h.version, host);
    Endian.NativeRoundTrip(h.options, host);
    ReadPointer.DecodeEncode(h.root);
  }

  /**
   * A header written with `byteswap` on one host and read on another reports a swapped file
   * exactly when the flag and the hosts' difference disagree: the byte order is told
   * unambiguously from the signature alone.
   */
  lemma ReadOnOtherHost(byteswap: bool, version: u32, root: ReadPointer.Pointer, writer: Endian.Endian, reader: Endian.Endian)
    ensures IsByteswap(Decode(Encode(New(byteswap, version, root, writer), writer), reader))
            == Ok(byteswap != (writer != reader))
  {
    var h := New(byteswap, version, root, writer);
    var b := Encode(h, writer);
    SwappedSignatures();
    if writer == reader {
      DecodeEncode(h, writer);
    } else {
      assert reader == Endian.Not(writer);
      Fields(Endian.NativeBytes(h.signature0, writer), Endian.NativeBytes(h.signature1, writer),
             Endian.NativeBytes(h.version, writer), Endian.NativeBytes(h.options, writer),
             ReadPointer.Encode(h.root));
      Endian.CrossHostRead(h.signature0, writer);
      Endian.CrossHostRead(h.signature1, writer);
      Swap32Involution(SIGNATURE0);
      Swap32Involution(SIGNATURE1);
    }
  }

  /**
   * The header of the smallest file: little endian, version 0, NULL root. Its bytes are
   * "GVariant" followed by 16 zero bytes.
   */
  lemma MinimalHeaderBytes()
    ensures Encode(New(false, 0, ReadPointer.NULL, Endian.Little), Endian.Little)
            == [71, 86, 97, 114, 105, 97, 110, 116] + seq(16, _ => 0)
  {
    var h := New(false, 0, ReadPointer.NULL, Endian.Little);
    SignatureBytes();
    ZeroImage(Endian.Little);
    var z: bytes := [0, 0, 0, 0];
    assert ReadPointer.Encode(h.root) == z + z by { ZeroImage(Endian.Little); }
    assert Encode(h, Endian.Little) == [71, 86, 97, 114] + [105, 97, 110, 116] + z + z + (z + z);
    assert z + z + (z + z) == seq(16, _ => 0);
  }

  /** A big-endian host writing a little-endian file (byteswap set) produces the same bytes. */
  lemma MinimalHeaderBytesOnBigEndianHost()
    ensures Encode(New(true, 0, ReadPointer.NULL, Endian.Big), Endian.Big)
            == Encode(New(false, 0, ReadPointer.NULL, Endian.Little), Endian.Little)
  {
    var hb := New(true, 0, ReadPointer.NULL, Endian.Big);
    var hl := New(false, 0, ReadPointer.NULL, Endian.Little);
    SwappedSignatureImage(SIGNATURE0);
    SwappedSignatureImage(SIGNATURE1);
    Endian.ToLeImage(0, Endian.Big);
    ZeroImage(Endian.Big);
    ZeroImage(Endian.Little);
    SameFieldBytes(hb, Endian.Big, hl, Endian.Little);
  }

  /** Two headers whose fields occupy the same bytes encode to the same bytes. */
  lemma SameFieldBytes(h1: Header, host1: Endian.Endian, h2: Header, host2: Endian.Endian)
    requires Endian.NativeBytes(h1.signature0, host1) == Endian.NativeBytes(h2.signature0, host2)
    requires Endian.NativeBytes(h1.signature1, host1) == Endian.NativeBytes(h2.signature1, host2)
    requires Endian.NativeBytes(h1.version, host1) == Endian.NativeBytes(h2.version, host2)
    requires Endian.NativeBytes(h1.options, host1) == Endian.NativeBytes(h2.options, host2)
    requires h1.root == h2.root
    ensures Encode(h1, host1) == Encode(h2, host2)
  {
  }

  /** A swapped word kept by a big-endian host has the bytes of the word on a little-endian one. */
  lemma SwappedSignatureImage(x: u32)
    ensures Endian.NativeBytes(Swap32(x), Endian.Big) == Endian.NativeBytes(x, Endian.Little)
  {
    Swap32Image(x);
    ReverseReverse(LeBytes32(x));
  }

  lemma ZeroImage(host: Endian.Endian)
    ensures Endian.NativeBytes(0, host) == [0, 0, 0, 0]
  {
    assert LeBytes32(0) == [0, 0, 0, 0];
  }

  /** A byte-swapped file written on a little-endian host starts with the big-endian signature. */
  lemma BigEndianSignatureBytes(root: ReadPointer.Pointer)
    ensures Encode(New(true, 0, root, Endian.Little), Endian.Little)[..8]
            == [114, 97, 86, 71, 116, 110, 97, 105]
  {
    var h := New(true, 0, root, Endian.Little);
    SignatureBytes();
    Swap32Image(SIGNATURE0);
    Swap32Image(SIGNATURE1);
    Reverse4(71, 86, 97, 114);
    Reverse4(105, 97, 110, 116);
    Fields(Endian.NativeBytes(h.signature0, Endian.Little), Endian.NativeBytes(h.signature1, Endian.Little),
           Endian.NativeBytes(h.version, Endian.Little), Endian.NativeBytes(h.options, Endian.Little),
           ReadPointer.Encode(h.root));
  }

  lemma Reverse4(a: byte, b: byte, c: byte, d: byte)
    ensures Reverse([a, b, c, d]) == [d, c, b, a]
  {
  }
}
