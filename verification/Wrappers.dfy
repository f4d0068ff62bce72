/** Results of operations that may fail; each error names one of the library's exceptions. */
module Wrappers {

  datatype Option<+T> = None | Some(value: T)

  datatype Error =
    | NotHex
    | WrongLength(expected: nat, received: nat)
    | SharedKeyFailed
    | CipherFailed
    | TooShort
    | BadTagOrPadding
    | UnknownEncryptType
    | JunkTooSmall
    | BadMetadata
    | NoEphemeralKey
    | NotText
    | NotBase64
    | WrongSignatureSize
    | EmptyRange

  datatype Result<+T> = Ok(value: T) | Err(error: Error)
}
