/** Option and Result, the error channel used instead of Python exceptions. */
module Wrappers {
  datatype Option<+T> = None | Some(value: T)

  datatype Result<+T, +E> = Ok(value: T) | Err(error: E)

  /** A parsed `ConfigParser` file: section name to option name to value. */
  type Config = map<string, map<string, string>>
}

/** The exceptions the modelled code raises or lets escape, one constructor each. */
module Errors {
  datatype Error =
    | ConfigUnavailable             // IOError: config file unreadable or without an [encrypt] section
    | MissingOption(name: string)   // KeyError from ConfigParser item lookup
    | InvalidKeySize                // ValueError from algorithms.AES or Cipher: key not 16, 24 or 32 bytes
    | InvalidIvSize                 // ValueError from modes.GCM: iv not 8..128 bytes
    | InvalidTagSize                // modes.GCM refuses a tag that is not 16 bytes
    | InvalidTag                    // cryptography.exceptions.InvalidTag raised by finalize()
    | StructError                   // struct.error: header shorter than 36 bytes
    | VersionMismatch(expected: nat, found: nat)  // AESGCMEncrypt.VersionException
    | Base64Error                   // binascii.Error from b64decode
    | ArgumentCount(given: nat)     // TypeError: decrypt() called with other than three parts
    | UnicodeError                  // UnicodeDecodeError from bytes.decode()
    | InvalidReadLength             // ValueError from a buffered binary read of a size below -1
}
