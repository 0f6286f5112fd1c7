// The error values of Rust's `std::io` that the server's path and file code
// returns: a kind and a message.
module RustIo {

  datatype ErrorKind = NotFound | PermissionDenied | InvalidInput | InvalidData | Other

  datatype IoError = IoError(kind: ErrorKind, message: string)
}
