/** The exceptions the modelled code raises, whether its own or the Ruby runtime's. */
module Errors {
  datatype Error =
    | ProgrammerMistake(message: string)  // Errors::ProgrammerMistake
    | NoSuchEntry(path: string)           // Errno::ENOENT
    | NotADirectory(path: string)         // Errno::ENOTDIR
    | IsADirectory(path: string)          // Errno::EISDIR
    | AlreadyExists(path: string)         // Errno::EEXIST
    | DirectoryNotEmpty(path: string)     // Errno::ENOTEMPTY
    | InvalidArgument(path: string)       // Errno::EINVAL
    | NullByteInPath(path: string)        // ArgumentError: a path holding a NUL byte
    | SameFile(path: string)              // ArgumentError "same file" from FileUtils.cp_r
}
