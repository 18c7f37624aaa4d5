/** The variants of `LifelogError` (common/lifelog-core/src/error.rs) that the modelled
    code reports. */
module Errors {
  datatype LifelogError =
    | Validation(field: string, reason: string)
    | Database(message: string)
    | Io(message: string)
    | InvalidDataModality(source: string)

  /** The `Display` text of an error. */
  function ErrorText(e: LifelogError): string {
    match e
    case Validation(f, r) => "validation failed for field '" + f + "': " + r
    case Database(m) => "database: " + m
    case Io(m) => "I/O error: " + m
    case InvalidDataModality(s) => "tried to parse invalid data modality: '" + s + "'"
  }
}
