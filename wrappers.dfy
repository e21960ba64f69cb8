/** Failure-carrying results, and the error kinds the archive engine reports. */
module Wrappers {

  datatype Option<+T> = None | Some(value: T)

  datatype Result<+T, +E> = Ok(value: T) | Err(error: E)

  datatype Outcome<+E> = Pass | Fail(error: E)
}

module Errors {

  /** What can go wrong in the archive engine. */
  datatype Error =
    /** `Entries::convert` asked for the revision the table already has. */
    | ConversionToSelf
    /** `Entries::convert` asked for a revision it does not list. */
    | ConversionUnknown
    /** `MstBody::convert` asked for a version other than 1.6.0, 1.7.0 or 1.8.0. */
    | UnknownTargetVersion
    /** A table variant was written against a version it does not belong to. */
    | VersionMismatch
    /** No table variant accepts the version (or its layout does not fit the input). */
    | NoVariantMatched
    /** The input ended before a field could be read. */
    | UnexpectedEof
    /** A content source could not be opened or read. */
    | Io
}
