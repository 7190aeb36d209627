/**
 * The reader's error values (the `Error` enum of the GVDB reader). Messages are replaced by
 * the reason they report.
 */
module ReadError {
  import opened GvdbUtil

  datatype DataReason =
    | InvalidHeader
    | InvalidSignature
    | UnknownVersion(version: u32)
    | NotEnoughBytes
    | RemainingSizeInvalid
    | ParentInvalidOffset(parent: nat)
    | ParentLoop
    | NotAValue
    | NotAHashTable

  datatype Error =
    | Utf8
    | DataOffset
    | DataAlignment
    | Data(reason: DataReason)
    | KeyNotFound(key: bytes)
    | InvalidData
}
