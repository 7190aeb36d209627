/**
 * Opening a GVDB file from bytes (gvdb/src/read/file.rs): header checks, the byte order flag
 * and pointer dereferencing. Only in-memory bytes are modelled; the host's byte order is the
 * parameter `host`.
 */
module ReadFile {
  import opened GvdbUtil
  import opened Wrappers
  import opened ReadError
  import Endian
  import ReadPointer
  import ReadHeader

  datatype File = File(data: bytes, byteswapped: bool)

  /**
   * `File::dereference`: the bytes a pointer designates, checked for order, alignment and bounds.
   * The source tests alignment with the mask `start & (alignment - 1)`, which for a power of two
   * is the remainder `start % alignment`.
   */
  function Dereference(file: File, p: ReadPointer.Pointer, alignment: nat): (r: Result<bytes, Error>)
    requires IsPowerOfTwo(alignment)
    ensures r == Err(DataOffset) <==> p.start > p.end || (p.start % alignment == 0 && p.end > |file.data|)
    ensures r == Err(DataAlignment) <==> p.start <= p.end && p.start % alignment != 0
    ensures r.Ok? ==> p.start <= p.end <= |file.data| && r.value == file.data[p.start..p.end]
  {
    if p.start > p.end then Err(DataOffset)
    else if p.start % alignment != 0 then Err(DataAlignment)
    else if p.end <= |file.data| then Ok(file.data[p.start..p.end])
    else Err(DataOffset)
  }

  /** Dereferencing with alignment 2 on the 24-byte minimal file, as the source's own tests do. */
  lemma DereferenceExamples(data: bytes)
    requires |data| == ReadHeader.HEADER_SIZE
    ensures Dereference(File(data, false), ReadPointer.Pointer(40, 42), 2) == Err(DataOffset)
    ensures Dereference(File(data, false), ReadPointer.Pointer(10, 0), 2) == Err(DataOffset)
    ensures Dereference(File(data, false), ReadPointer.Pointer(1, 2), 2) == Err(DataAlignment)
    ensures Dereference(File(data, false), ReadPointer.Pointer(2, 6), 2) == Ok(data[2..6])
  {
  }

  /** `File::get_header`: the first 24 bytes read as a header on this host. */
  function GetHeader(file: File, host: Endian.Endian): (r: Result<ReadHeader.Header, Error>)
    ensures r.Err? <==> |file.data| < ReadHeader.HEADER_SIZE
    ensures r.Err? ==> r.error == DataOffset
  {
    if |file.data| < ReadHeader.HEADER_SIZE then Err(DataOffset)
    else Ok(ReadHeader.Decode(file.data[..ReadHeader.HEADER_SIZE], host))
  }

  /** `File::read_header`: validates signature and version and records the byte order. */
  function ReadFileHeader(file: File, host: Endian.Endian): (r: Result<File, Error>)
    ensures r.Ok? ==> r.value.data == file.data
  {
    var header :- GetHeader(file, host);
    if !ReadHeader.HeaderValid(header) then Err(Data(InvalidHeader))
    else
      // `is_byteswap()?` cannot fail once the header is valid
      var file' := file.(byteswapped := ReadHeader.IsByteswap(header).value);
      if ReadHeader.Version(header) != 0 then Err(Data(UnknownVersion(ReadHeader.Version(header))))
      else Ok(file')
  }

  /** `File::from_bytes` */
  function FromBytes(data: bytes, host: Endian.Endian): (r: Result<File, Error>)
  {
    ReadFileHeader(File(data, false), host)
  }

  /**
   * What `from_bytes` accepts: data of at least 24 bytes whose header has a known signature
   * and version 0. The data is kept unchanged and the byte order is the header's.
   */
  lemma FromBytesSpec(data: bytes, host: Endian.Endian)
    ensures var r := FromBytes(data, host);
      r.Ok? <==> |data| >= ReadHeader.HEADER_SIZE
                 && ReadHeader.HeaderValid(ReadHeader.Decode(data[..ReadHeader.HEADER_SIZE], host))
                 && ReadHeader.Version(ReadHeader.Decode(data[..ReadHeader.HEADER_SIZE], host)) == 0
    ensures var r := FromBytes(data, host);
      r.Ok? ==> r.value.data == data
                && ReadHeader.IsByteswap(ReadHeader.Decode(data[..ReadHeader.HEADER_SIZE], host))
                   == Ok(r.value.byteswapped)
    ensures |data| < ReadHeader.HEADER_SIZE ==> FromBytes(data, host) == Err(DataOffset)
  {
  }

  /** A header with an unknown signature is rejected with a Data error. */
  lemma FromBytesRejectsSignature(data: bytes, host: Endian.Endian)
    requires |data| >= ReadHeader.HEADER_SIZE
    requires !ReadHeader.HeaderValid(ReadHeader.Decode(data[..ReadHeader.HEADER_SIZE], host))
    ensures FromBytes(data, host) == Err(Data(InvalidHeader))
  {
  }

  /** A header with a valid signature but a version other than 0 is rejected with a Data error. */
  lemma FromBytesRejectsVersion(data: bytes, host: Endian.Endian)
    requires |data| >= ReadHeader.HEADER_SIZE
    requires ReadHeader.HeaderValid(ReadHeader.Decode(data[..ReadHeader.HEADER_SIZE], host))
    requires ReadHeader.Version(ReadHeader.Decode(data[..ReadHeader.HEADER_SIZE], host)) != 0
    ensures FromBytes(data, host).Err? && FromBytes(data, host).error.Data?
  {
  }

  /** The order the payload decoder must use (`File::zvariant_endianess`). */
  function ZvariantEndianess(file: File, host: Endian.Endian): (e: Endian.Endian)
    ensures e == Endian.Little <==> (host == Endian.Little && !file.byteswapped) || (host == Endian.Big && file.byteswapped)
  {
    if (host == Endian.Little && !file.byteswapped) || (host == Endian.Big && file.byteswapped) then Endian.Little
    else Endian.Big
  }

  /** The payload order is the host's order, negated when the file is byte-swapped. */
  lemma ZvariantEndianessIsHostOrSwapped(file: File, host: Endian.Endian)
    ensures ZvariantEndianess(file, host) == if file.byteswapped then Endian.Not(host) else host
  {
  }

  /** A 24-byte file holding only the header of the smallest file opens, not byte-swapped. */
  lemma MinimalFileOpens()
    ensures var data := ReadHeader.Encode(ReadHeader.New(false, 0, ReadPointer.NULL, Endian.Little), Endian.Little);
      FromBytes(data, Endian.Little) == Ok(File(data, false))
  {
    var h := ReadHeader.New(false, 0, ReadPointer.NULL, Endian.Little);
    var data := ReadHeader.Encode(h, Endian.Little);
    ReadHeader.DecodeEncode(h, Endian.Little);
    assert data[..ReadHeader.HEADER_SIZE] == data;
    ReadHeader.IsByteswapOfNew(false, 0, ReadPointer.NULL, Endian.Little);
  }
}
