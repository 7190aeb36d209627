/**
 * The writer's errors (gvdb/src/write/error.rs). Messages are not modelled; an I/O error
 * cannot arise because output goes to an in-memory byte sequence. `ZVariant` is kept to
 * mirror the source's error type but is never produced: values are written as opaque bytes,
 * so no payload encoding can fail (see `WriteFile.FileWriter.AddValue` in the README).
 */
module WriteError {
  datatype Error = Io | Consistency | ZVariant
}
