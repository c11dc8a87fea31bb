/** The library's error type. */
module Errors {
  import opened Bytes
  import opened Wrappers
  import Paths

  datatype GitError =
    | InvalidHashSize(expected: nat, got: nat)
    | MissingDirectory(path: seq<Paths.Component>)
    | MissingFile(path: seq<Paths.Component>)
    | InvalidRef(name: seq<Paths.Component>)
    | InvalidBranch(name: seq<Paths.Component>)
    | InvalidTag(name: seq<Paths.Component>)
    | InvalidRemote(name: seq<Paths.Component>)
    | ParsingErrorNotEnough(needed: Option<nat>)
    | ParsingError(message: seq<byte>)
    /** Used by the object parsers although the error type in
        `src/error.rs` does not declare it. */
    | ParsingErrorUnknown
    | IoError
    | Other(message: seq<byte>)
    | Unknown(message: seq<byte>)
}
