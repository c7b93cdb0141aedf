/**
 * Shared vocabulary of the storage layer: the status codes the dictionary
 * operations return, record identifiers, and an optional value standing for
 * a nullable handle (a null RecordId, an unpositioned cursor).
 */
module Base {

  /** The outcomes the dictionary contract can report. */
  datatype Status = OK | NoSuchKey | DuplicateKey

  /**
   * A record identifier. The 64-bit representation is not modelled: ids
   * are unbounded integers.
   */
  type RecordId = int

  /** The null RecordId. */
  const NullRecordId: RecordId := 0

  /** RecordId::max(), the largest signed 64-bit integer. */
  const MaxRecordId: RecordId := 0x7FFF_FFFF_FFFF_FFFF

  /** A value that may be absent. */
  datatype Option<+T> = None | Some(value: T)
}
