/** The sentinel errors of the package, and the failures it passes on from its callers. */
module Errors {

  datatype Error =
    | InvalidKey
    | InvalidCiphertext
    | CiphertextTooShort
    | NotBlockAligned
    | InvalidPadding
    | UnsupportedVersion
    | Tampered
    | UnknownFormat
    | InvalidPasswordHash
    | Truncated
    | Expired
      // errors without a sentinel
    | BadChunkSize
    | BadTtl
    | BadKid
    | DuplicateKid
    | UnknownKid
    | RemoveActive
    | UnknownKeyId
    | BadNonce
      // failures of the reader, the writer and the random source
    | ReadFault
    | WriteFault
    | EntropyFault

  datatype Result<+T> = Ok(value: T) | Err(error: Error)
}
