/**
 * Outcomes of the Setup.bin operations. Every `throw Error(...)` of the tool
 * becomes a `Failure` carrying one of the `Error` values below, one per
 * distinct message the tool throws.
 */
module Results {

  datatype Option<+T> = None | Some(value: T)

  datatype Error =
    /** "cannot add duplicate variable <name>" */
    | DuplicateVariable(name: string)
    /** "unknown variable <name> type <code>" */
    | UnknownVariableType(name: string, typeCode: int)
    /** "unknown variable name <name>" */
    | UnknownVariableName(name: string)
    /** "failed to load data from an unknown reason" */
    | LoadFailed
    /** "only version 4 is supported" */
    | UnsupportedVersion
    /** "only a single record is supported" */
    | UnsupportedRecordCount
    /** "--certificate value must be the certificate sha256 hex-encoded hash and the certificate name" */
    | MalformedCertificate

  datatype Result<+T> = Success(value: T) | Failure(error: Error)
}
