/** Optional values and the status codes of include/vaultkv/types.h. */
module Results {
  datatype Option<+T> = None | Some(value: T)

  datatype Code =
    | NotFound
    | InvalidArgument
    | IoError
    | Corruption
    | CryptoError
    | NoQuorum

  datatype Result<+T> = Ok(value: T) | Err(code: Code)
}
