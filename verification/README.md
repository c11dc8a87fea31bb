# git objects in Dafny

A model of the encode/decode core of a Rust library that reads and writes
git's on-disk objects: object identifiers and their hex and raw forms,
references, the `<type> <size>\0` object header, blobs, trees with their
octal permissions, commits with their tree, parent, author, committer,
encoding and extra headers, dates and people, the pack index, the
serialisation primitives, the hashing of loose objects, and following
references in a repository. Every operation is a pure function over byte
sequences (`seq<byte>`, UTF-8 text being the bytes of its encoding), and
the properties are proved about those functions: that what is written
reads back, that reported sizes are the lengths written, what inputs are
errors, and how the parsers treat what follows.

The library is in the middle of a rewrite and carries several
generations of the same concepts that disagree with one another (the
permission weights, the tree-entry tags, the date formats). Each
generation is its own module here, so each can be stated as written:

| module | models |
|---|---|
| `Refs`, `Paths` | `src/refs.rs`: references, `HEAD`, link and identifier files, their paths |
| `ElementsHash`, `Hex` | `src/object/elements/hash.rs`: the hash reference, its prefix, loose part, path and hex codec |
| `ProtocolHash` | `src/protocol/hash.rs`: the SHA-1 identifier with its raw and hex encoders and decoders |
| `ProtocolTree`, `PathSet`, `Lex` | `src/object/tree.rs`: POSIX permission digits, tree entries, trees as sets ordered by path |
| `ProtocolBlob`, `ObjectHead` | `src/object/blob.rs`: blobs behind the `blob <size>\0` header |
| `Objectable` | `src/objectable.rs`: the mapping of parser results to errors |
| `Serialise`, `BigEndian` | `src/protocol/serialise.rs`: the decoder combinators and the readers of numbers and strings |
| `PackIndex` | `src/fs/pack/index.rs`: the pack index header, fan-out table, names and offsets |
| `ModRefs`, `ModExtras`, `ModCommit`, `ModTree`, `ModObject` | `src/object/mod.rs`: tree references, parents, encoding, extras, commits, permissions, tree entries, trees and objects |
| `LegacyObject` | `src/object.rs`: the first generation's dates, people and commit parser |
| `BackupDate`, `Timezone`, `Decimal` | `src/object_backup/elements/date.rs`: elapsed seconds, time zones, dates |
| `ElementsDate` | `src/object/elements/date.rs`: the newer date |
| `BackupPerson` | `src/object_backup/elements/person.rs`: people, authors and committers |
| `ObjectPerson` | `src/object/person.rs`: the newer person, with its date as a parameter |
| `Hashing` | `src/hash.rs` and the blobs of `src/object.rs` and `src/object/mod.rs`: chunked hashing |
| `GitHash`, `GitObject` | `src/git/hash.rs`, `src/git/object.rs`: the generic hash and the single-chunk blob |
| `Repo` | `src/protocol/repo.rs` and `src/repo.rs`: following links and looking up objects over an abstract store |
| `Nom`, `Utf8`, `Bytes`, `Wrappers`, `Errors` | the conventions of the macro-based nom the source is written against (`IResult` with `Done`, `Error` and `Incomplete`; `named!`, `chain!`, `do_parse!`, `many0!`, `u32!`), UTF-8 validity, byte strings, results and error values |

A parser returns `Done(rest, value)`, `Error`, `Incomplete(needed)` or
`Abort`; `Abort` stands for a Rust panic, such as a slice out of range.
SHA-1, the store behind a repository and the date library are parameters.
Where the code and git, or the code and its own documentation, disagree,
the model states the code as written and, next to it, a corrected member
with the evidently intended behaviour; the two are tied together under
"Findings". Members named `...AsWritten` follow the source; members whose
row in the table below says "corrected" do not, and each is named under
"Left out". The tree-entry tags and quoted paths of `src/object/mod.rs`,
the time zones of both date generations, the hash reader without a
length check and the encoding parser of `src/object.rs` are all modelled
as written, and the readers, writers and round trips built on them use
the as-written members.

## Model

| member | source | states |
|---|---|---|
| Paths.Split | src/refs.rs:54-55 | a path text splits into `/`-free segments, at least one |
| Paths.ComponentsRender | src/refs.rs:35-55 | a relative name of normal and `..` components, written with `/` between them, reads back as the same components |
| Paths.ComponentsTrailingSlash | src/refs.rs:54-55 | a trailing `/` adds no component |
| Paths.ComponentsUnder | src/refs.rs:55-58 | the components of `a/b`, for a single name `a`, are `a` followed by those of `b` |
| Hex.ToHex | src/object/elements/hash.rs:103-107 | the hex form has two lower-case digits per byte |
| Hex.FirstBad | src/object/elements/hash.rs:130-134 | the reported position is the first byte that is neither a hex digit nor a skipped blank, and there is none exactly when every byte is one of those |
| Hex.FromHex | src/object/elements/hash.rs:130-134 | decoding succeeds exactly when no byte is rejected and the digit count is even; a rejected byte is reported with its position; success gives half as many bytes as digits |
| Hex.FromHexToHex | src/object/elements/hash.rs:103-143 | decoding the hex form of any bytes gives those bytes |
| Hex.ToHexFromHex | src/object/elements/hash.rs:103-143 | lower-case hex text that decodes is exactly the hex form of what it decodes to |
| Hex.NibblesInjective | src/object/elements/hash.rs:103-107 | two lower-case hex texts with the same digit values are the same text |
| Hex.DecodeHex | src/object/elements/hash.rs:123-133 | the byte-at-a-time decoding loop, with its shifting 8-bit buffer and digit parity, computes the same result as the definition `FromHex` |
| Hex.FirstBadExtends | src/object/elements/hash.rs:133 | the first rejected byte of a prefix stays the first rejected byte of the whole text |
| Refs.Spelling | src/refs.rs:57-72 | the keyword byte strings spell `refs`, `tags`, `heads`, `patches`, `stash`, `remotes`, `HEAD`, `ORIG_HEAD` and `FETCH_HEAD` |
| Whitespace.SpaceWidth | src/refs.rs:54 | the width of the White_Space character the text ends in: one exactly for an ASCII blank, two exactly for U+0085 or U+00A0, three for U+1680, U+2000-U+200A, U+2028, U+2029, U+202F, U+205F or U+3000, and zero when it ends in none |
| Whitespace.TrimEnd | src/refs.rs:54 | trimming keeps a prefix of the text that does not end in a Unicode White_Space character, and what it drops is a run of such characters |
| Whitespace.TrimsNoBreakSpace | src/refs.rs:54 | a no-break space (C2 A0) at the end is trimmed, so `refs/heads/x` followed by it names the branch `x` |
| Whitespace.TrimEndUnspaced | src/refs.rs:54 | a text that does not end in white space is left as it is |
| Refs.KeywordsDiffer | src/refs.rs:57-72 | the keywords are pairwise different, so at most one branch of `from_str` applies |
| Refs.UnderRefs | src/refs.rs:58-67 | after a leading `refs`, the second component decides the kind: `tags`, `heads` or `patches` (the rest is the name), `stash`, or `remotes` followed by a normal component (the remote, then the name); each in both directions |
| Refs.FromComponents | src/refs.rs:55-74 | a first component `HEAD`, `ORIG_HEAD` or `FETCH_HEAD` gives that reference, in both directions; a tag, branch, patch or remote comes only from `refs/<kind>/` followed by its components; stash only from `refs/stash`; anything else is `InvalidRef` of the components |
| Refs.FromStr | src/refs.rs:51-75 | the same mapping applied to the components of the text with trailing white space removed; the error carries the trimmed path |
| Refs.FromStrKeyed | src/refs.rs:59-83 | the text of a tag, branch or patch has no trailing blank and reads back as the same reference |
| Refs.FromStrRemote | src/refs.rs:63-82 | the text of a remote branch reads back as the same reference |
| Refs.FromStrStash | src/refs.rs:62-84 | `refs/stash` reads back as `Stash` |
| Refs.FromStrDisplay | src/refs.rs:51-88 | every reference whose names are normal components reads back from its text, and trimming leaves the text unchanged, so displaying the result gives the same text |
| Refs.Display | src/refs.rs:77-88 | the text starts with `refs/` exactly for the references kept under `refs`, and not for `HEAD`, `ORIG_HEAD` or `FETCH_HEAD` |
| Refs.PathOfWellFormed | src/refs.rs:91-104 | the path of a reference is `refs`, its kind directory and its name components, or the single keyword component |
| Refs.RefFromStr | src/refs.rs:156-166 | text starting with `ref: ` is a link to the reference read from the rest, otherwise a hexadecimal object identifier; errors of either reader are passed on unchanged |
| Refs.RefFromStrDisplay | src/refs.rs:147-166 | a link or a valid identifier reads back from its displayed text |
| Refs.RefPath | src/refs.rs:128-145 | an identifier's path is `objects`, a two-digit directory and a file whose names together spell the identifier's hex text; a link's path is its reference's path |
| ElementsHash.Prefix | src/object/elements/hash.rs:80-81 | the prefix is `PREFIX_SIZE` bytes and the prefix followed by the loose part is the whole hash |
| ElementsHash.Loose | src/object/elements/hash.rs:81 | the loose part is everything after the prefix |
| ElementsHash.Path | src/object/elements/hash.rs:83-87 | the path is the hex prefix, then the hex loose part when there is one, and the two names together spell the hash's hex text |
| ElementsHash.HexSplit | src/object/elements/hash.rs:83-87 | the hex form of a concatenation is the concatenation of the hex forms |
| ElementsHash.Display | src/object/elements/hash.rs:103-107 | the text is lower-case hex, two digits per byte |
| ElementsHash.ProvideSize | src/object/elements/hash.rs:108-113 | the size reported is the length of the serialised text of every full-size hash |
| ElementsHash.NomParseAsWritten | src/object/elements/hash.rs:114-128 | fewer than forty bytes ask for forty; otherwise exactly forty bytes are consumed, the result is a hash of at most twenty bytes exactly when they decode as hex, and the reader panics exactly when hex decoding rejects a continuation byte after the first position |
| ElementsHash.NomParseAsWrittenPanics | src/object/elements/hash.rs:114-128 | `0`, the byte 0x80 and thirty-eight more `0`s make the reader panic |
| ElementsHash.NomParseAsWrittenDisplay | src/object/elements/hash.rs:103-128 | the hex text of a full digest reads back as that hash, leaving what follows |
| ElementsHash.NomParseAcceptsBlanks | src/object/elements/hash.rs:120-124 | forty spaces parse as a hash with no bytes, which is not a valid digest |
| ElementsHash.NomParse | src/object/elements/hash.rs:114-137 | corrected, with the digest-size check `from_str` makes and no panic: success exactly when forty bytes decode to twenty |
| ElementsHash.NomParseDisplay | src/object/elements/hash.rs:108-128 | a serialised hash parses back, leaving what follows untouched |
| ElementsHash.NomParseCanonical | src/object/elements/hash.rs:114-128 | lower-case text that parses is the serialised form of the hash it gives |
| ElementsHash.FromStr | src/object/elements/hash.rs:130-143 | a hex error is passed on with its message; a decoded length other than twenty is `InvalidHashSize(20, n)`; otherwise the hash holds the decoded bytes |
| ElementsHash.FromStrDisplay | src/object/elements/hash.rs:103-143 | the text of a valid hash reads back as that hash |
| ElementsHash.TryFrom | src/object/elements/hash.rs:158-168 | exactly twenty bytes are accepted and stored unchanged; any other length is `InvalidHashSize(20, n)` |
| ProtocolHash.FromBytes | src/protocol/hash.rs:78-100 | a value is built exactly from twenty bytes, and holds them unchanged |
| ProtocolHash.FromHex | src/protocol/hash.rs:43-48 | a value exactly when the text decodes as hex to twenty bytes, holding those bytes |
| ProtocolHash.ToHexadecimal | src/protocol/hash.rs:56-103 | the text is lower-case hex, twice as long as the digest |
| ProtocolHash.FromHexToHexadecimal | src/protocol/hash.rs:43-103 | the hex text of a valid digest reads back as that digest |
| ProtocolHash.Hash | src/protocol/hash.rs:85-98 | the reads are fed in order until the first empty one, and the value is the first twenty bytes of the digest of everything fed |
| ProtocolHash.DecodeBytes | src/protocol/hash.rs:112-124 | input shorter than twenty bytes aborts at the slice; otherwise the first twenty bytes are the digest and the rest is returned |
| ProtocolHash.EncodeBytes | src/protocol/hash.rs:125-130 | the count returned is the number of bytes written |
| ProtocolHash.DecodeEncodeBytes | src/protocol/hash.rs:112-130 | decoding the written bytes gives the digest back and leaves what follows |
| ProtocolHash.DecodeHex | src/protocol/hash.rs:132-149 | input not starting with a hex digit is an error, in both directions; success consumes a non-empty run of hex digits whose decoding is a valid digest |
| ProtocolHash.EncodeHexAsWritten | src/protocol/hash.rs:150-155 | the hex text is written |
| ProtocolHash.EncodeHexMiscounts | src/protocol/hash.rs:150-155 | the count returned differs from the number of bytes written |
| ProtocolHash.EncodeHex | src/protocol/hash.rs:56-155 | corrected: the hex text is written and the count returned is its length, where the source returns the digest size (EncodeHexAsWritten) |
| ProtocolHash.DecodeEncodeHex | src/protocol/hash.rs:132-155 | decoding the hex text gives the digest back when what follows does not start with a hex digit |
| ProtocolBlob.BlobRefFromBytes | src/object/blob.rs:39-53 | a blob reference is built exactly when the hash is, from the same twenty bytes |
| ProtocolBlob.RequiredSize | src/object/blob.rs:83 | the required size is the encoded length minus the header |
| ProtocolBlob.Encode | src/object/blob.rs:82-90 | the output is `blob <len>\0` followed by the data, and the count is its length |
| ProtocolBlob.Decode | src/object/blob.rs:69-98 | after the header, fewer bytes than declared ask for the missing count; otherwise exactly the declared bytes are the data and the rest is returned; header failures are passed on |
| ProtocolBlob.DecodeEncode | src/object/blob.rs:109-114 | decoding an encoded blob gives it back and leaves what follows |
| ObjectHead.Render | src/object/blob.rs:85 | the header is the keyword, the decimal size and a NUL |
| ObjectHead.Parse | src/object/blob.rs:92-98 | success needs the keyword at the start and yields a size that fits a `usize` |
| ObjectHead.ParseRender | src/object/blob.rs:85-98 | a written header reads back as its size, leaving what follows |
| Objectable.ParseBytes | src/objectable.rs:20-27 | a parsed value becomes `Ok` of it; an error becomes `ParsingErrorUnknown`, in both directions; a request for more input becomes `ParsingErrorNotEnough` with the size when one is known |
| Objectable.ParseBytesIgnoresRest | src/objectable.rs:22 | the input left over does not change the result |
| Objectable.ParseBytesFailuresDistinct | src/objectable.rs:23-25 | two failures reported alike are the same failure |
| ProtocolTree.Weight | src/object/tree.rs:107-127 | the digit of a permission set is below eight, with Read weighing 4, Write 2 and Executable 1, each in both directions |
| ProtocolTree.WeightInjective | src/object/tree.rs:121-127 | different permission sets have different digits |
| ProtocolTree.NewFromByte | src/object/tree.rs:74-104 | an octal digit gives the set whose weight is that digit; any other byte gives the empty set |
| ProtocolTree.ToChar | src/object/tree.rs:106-113 | the character of a set is an octal digit that reads back as the same set |
| ProtocolTree.ToCharNewFrom | src/object/tree.rs:101-113 | reading an octal digit and writing it back gives the same digit |
| ProtocolTree.ParsePermissionSet | src/object/tree.rs:128-130 | one byte is taken and read as a digit; empty input asks for one byte |
| ProtocolTree.DisplayPermissions | src/object/tree.rs:189-198 | the text is `0` and the user, group and other digits |
| ProtocolTree.DefaultDir | src/object/tree.rs:162-163 | the directory default shows as `0000` |
| ProtocolTree.DefaultFile | src/object/tree.rs:164-171 | the file default shows as `0644` |
| ProtocolTree.DefaultExe | src/object/tree.rs:172-179 | the executable default shows as `0755` |
| ProtocolTree.ParsePermissions | src/object/tree.rs:181-188 | success exactly on a leading `0` with three more bytes, each read as a digit; any other first byte is an error; short input asks for more |
| ProtocolTree.ParseDisplayPermissions | src/object/tree.rs:181-198 | displayed permissions read back, leaving what follows |
| ProtocolTree.TypeTag | src/object/tree.rs:230-235 | a sub-tree's tag is `4` and a blob's is `10`, in both directions |
| ProtocolTree.NewFrom | src/object/tree.rs:255-261 | the entry built from a tag has that tag and keeps the permissions, path and hash |
| ProtocolTree.EncodeEnt | src/object/tree.rs:298-317 | the output is the tag, the permissions, a space, the path, a NUL and the raw digest, and the count is its length for a valid digest |
| ProtocolTree.RequiredSizeEnt | src/object/tree.rs:299-306 | the required size is the count `encode` reports, and the encoded length for a valid digest |
| ProtocolTree.ParseType | src/object/tree.rs:324 | a parsed tag is `4` or `10` and is exactly what was consumed |
| ProtocolTree.ParsePath | src/object/tree.rs:318-322 | the path is the UTF-8 bytes before the first NUL, which is consumed; input with no NUL, or whose bytes before the first NUL are not UTF-8, is an error, in both directions |
| ProtocolTree.ParseEntHead | src/object/tree.rs:323-330 | a parsed head has a known tag and consumes input |
| ProtocolTree.DecodeEnt | src/object/tree.rs:291-297 | a decoded entry has a UTF-8 path without NUL and a full digest, and consumes input |
| ProtocolTree.DecodeEncodeEnt | src/object/tree.rs:291-330 | an encoded entry whose path is UTF-8 without NUL decodes to itself, leaving what follows |
| ProtocolTree.ParsePathOf | src/object/tree.rs:318-322 | a UTF-8 path without NUL followed by NUL reads back as itself |
| ProtocolTree.NewTree | src/object/tree.rs:337 | a new tree is empty |
| ProtocolTree.EncodeEntries | src/object/tree.rs:424-426 | the count for the entries is their encoded length |
| ProtocolTree.RequiredSize | src/object/tree.rs:429-435 | the required size is the entries' count, the header excluded |
| ProtocolTree.EncodeTree | src/object/tree.rs:419-428 | the output is `tree <required size>\0` followed by the entries in ascending path order, and the count is its length |
| ProtocolTree.DecodeEntries | src/object/tree.rs:450-455 | entries are inserted until one fails to decode; the result is ordered by path, contains everything inserted before, and stops where no entry decodes |
| ProtocolTree.DecodeTree | src/object/tree.rs:445-456 | fewer bytes than declared ask for the missing count; otherwise the entries are decoded from right after the header |
| ProtocolTree.DecodeEncodeEntries | src/object/tree.rs:450-455 | entries written in ascending path order are read back in that order with nothing left |
| ProtocolTree.DecodeEntriesStep | src/object/tree.rs:451-454 | one entry at the front of the input joins the tree and decoding continues after it |
| ProtocolTree.DecodeEncodeTree | src/object/tree.rs:473-512 | a tree of well-formed entries decodes from its encoding with nothing left, on all fields of every entry |
| PathSet.Get | src/object/mod.rs:695 | `get` finds an element of the tree stored under that path, and nothing exactly when no element has that path |
| PathSet.Insert | src/object/mod.rs:699 | `insert` reports true exactly when the path is new; then the element is added, and otherwise the tree is unchanged, so the old entry is kept; the tree stays ordered by path |
| PathSet.GetInsert | src/object/mod.rs:695-699 | after `insert`, a path finds what it found before, or the new element if its path was new |
| PathSet.InsertLast | src/object/tree.rs:367 | inserting an element whose path is above all others appends it |
| PathSet.InsertAll | src/object/mod.rs:719-723 | `extend` keeps the tree ordered, its paths are the old ones and the new ones, and no element is lost |
| PathSet.InsertAllFirstWins | src/object/mod.rs:719-723 | after inserting a sequence of entries one by one, each path finds the entry already present or else the first entry with that path |
| PathSet.InsertAllAscending | src/object/tree.rs:387-391 | inserting entries already in ascending path order appends them |
| PathSet.Filter | src/object/mod.rs:701-702 | the elements kept are exactly those whose path passes, still in order |
| PathSet.Contains | src/object/mod.rs:694 | `contains` holds exactly when an element has that path |
| PathSet.Take | src/object/mod.rs:702 | `take` returns what `get` finds, removes exactly that element and its path, and leaves the tree unchanged when there was none |
| PathSet.SortedKeyUnique | src/object/mod.rs:613-626 | in a tree ordered by path, one path names one element |
| PathSet.Remove | src/object/mod.rs:701 | `remove` reports whether the path was present, and afterwards it is not |
| PathSet.Replace | src/object/mod.rs:700 | `replace` returns what was stored under the path, and the tree then holds the new element in its place |
| PathSet.GetReplace | src/object/mod.rs:695-700 | after `replace`, the new element's path finds it and every other path finds what it found before |
| PathSet.Union | src/object/mod.rs:688-690 | the union holds the receiver's elements and those of the other tree whose paths the receiver lacks, ordered by path |
| PathSet.Intersection | src/object/mod.rs:685-687 | the receiver's elements whose path the other tree holds |
| PathSet.Difference | src/object/mod.rs:677-679 | the receiver's elements whose path the other tree lacks |
| PathSet.SymmetricDifference | src/object/mod.rs:680-684 | the elements of either tree whose path the other lacks |
| PathSet.IsSubset | src/object/mod.rs:697 | holds exactly when every path of the receiver is in the other tree |
| PathSet.IsDisjoint | src/object/mod.rs:696 | holds exactly when the trees share no path |
| PathSet.LenIsKeyCount | src/object/mod.rs:691 | `len` is the number of different paths |
| Lex.LessCommon | src/object/mod.rs:622-626 | paths are ordered at their first differing byte, a proper prefix coming first |
| Lex.Irreflexive | src/object/mod.rs:622-626 | no path comes before itself |
| Lex.Asymmetric | src/object/mod.rs:622-626 | two paths are never each before the other |
| Lex.Total | src/object/mod.rs:622-626 | of two different paths one comes first |
| Lex.Transitive | src/object/mod.rs:622-626 | the path order is transitive |
| ModTree.Weight | src/object/mod.rs:454-461 | the digit of a permission set is below eight, with Read weighing 1, Write 2 and Executable 4, each in both directions |
| ModTree.WeightInjective | src/object/mod.rs:454-461 | different permission sets have different digits |
| ModTree.NewFromByte | src/object/mod.rs:416-442 | a digit `0` to `7` gives the set whose weight is that digit; any other byte gives the empty set |
| ModTree.ToChar | src/object/mod.rs:444-450 | the character of a set is the digit of its weight, and reads back as the same set |
| ModTree.ToCharNewFrom | src/object/mod.rs:443-450 | a digit read and written back is the same digit |
| ModTree.ToCharOtherByte | src/object/mod.rs:439-450 | any other byte is read as the empty set and written back as `0` |
| ModTree.ParsePermissionSet | src/object/mod.rs:462-464 | one byte is taken, whatever it is; empty input asks for one byte |
| ModTree.SerialisePermissions | src/object/mod.rs:492-501 | `0` then the user, group and other digits |
| ModTree.ProvidePermissionsSize | src/object/mod.rs:502 | the size is the length of what is written |
| ModTree.ParsePermissions | src/object/mod.rs:484-491 | success exactly on a leading `0` with three more bytes; any other first byte is an error |
| ModTree.ParseSerialisePermissions | src/object/mod.rs:484-502 | written permissions read back, leaving what follows |
| ModTree.TagsInverted | src/object/mod.rs:573-593 | the source gives a directory the tag `10` and a file `4`, and reads `4` as a file |
| ModTree.EntType | src/object/mod.rs:588-593 | corrected: `4` exactly for a directory and `10` for a file, git's modes where the source swaps them |
| ModTree.NewFrom | src/object/mod.rs:573-581 | corrected: with git's modes the entry built carries the kind whose tag it was built from, and keeps the permissions, path and digest; the source's swapped choice is stated by TagsInverted |
| ModTree.NewFromEntType | src/object/mod.rs:573-593 | both tag conventions read back the kind that wrote them |
| ModTree.DebugPath | src/object/mod.rs:529 | the Debug form of a plain path is two bytes longer than the path and differs from it |
| ModTree.DebugPathReadable | src/object/mod.rs:529-542 | the Debug form is a path the reader accepts |
| ModTree.SerialiseEntAsWritten | src/object/mod.rs:523-533 | as written: the swapped tag comes first and the digest last, and the length counts the two quotes the Debug form puts round the path |
| ModTree.ProvideSizeEntAsWritten | src/object/mod.rs:523-536 | as written: what is written for an entry with a plain path is longer than the size reported for it by exactly its tag and its digest |
| ModTree.ParseEntAsWritten | src/object/mod.rs:543-551 | an entry read has a full digest and consumes input |
| ModTree.QuotedPathReadBack | src/object/mod.rs:523-551 | an entry written as the source writes it reads back with the quotes in its path, so not as itself |
| ModTree.SerialiseEnt | src/object/mod.rs:523-533 | corrected (git's tag, raw path): the tag comes first and the digest last, with six bytes of permissions, space and NUL between them and the path |
| ModTree.ProvideSizeEnt | src/object/mod.rs:534-536 | corrected: the size counts every byte written for the entry |
| ModTree.ParseEntHead | src/object/mod.rs:538-547 | a parsed head has a known tag and a UTF-8 path without NUL, and consumes input |
| ModTree.ParseEnt | src/object/mod.rs:543-551 | corrected (git's tags): a parsed entry has a full digest and a UTF-8 path without NUL, and consumes input |
| ModTree.ParseTypeOf | src/object/mod.rs:544 | either tag written is read back, leaving what follows |
| ModTree.ParseEntHeadOf | src/object/mod.rs:538-547 | a written head reads back, leaving what follows |
| ModTree.DigestOf | src/object/mod.rs:548 | exactly twenty bytes are taken for the digest |
| ModTree.ParseSerialiseEnt | src/object/mod.rs:523-551 | corrected: with git's tags and the raw path, an entry written then read is the same entry in every field |
| ModTree.EntChunks | src/object/mod.rs:655-660 | corrected: one chunk per entry, in order, each the entry written with git's tag and the raw path |
| ModTree.SerialiseTreeAsWritten | src/object/mod.rs:655-660 | as written: nothing for no entries, and otherwise the text starts with the first entry's swapped tag |
| ModTree.ProvideSizeTreeAsWritten | src/object/mod.rs:655-668 | as written: a tree of plain paths and full digests is at least twenty bytes per entry longer than the size reported for it |
| ModTree.SerialiseTree | src/object/mod.rs:655-660 | corrected: nothing for no entries, and otherwise the text starts with the first entry's git tag |
| ModTree.ProvideSizeTree | src/object/mod.rs:662-668 | corrected: the size is the length of the corrected text |
| ModTree.ParseTree | src/object/mod.rs:633-641 | corrected (git's tags): reading never fails outright, and a tree read is ordered by path |
| ModTree.FirstEntryWins | src/object/mod.rs:636-641 | for a path read more than once, the first entry read stays |
| ModTree.ParseSerialiseTree | src/object/mod.rs:633-668 | corrected: a well-formed tree written with git's tags and raw paths, then read, is the same tree, with nothing left |
| ModTree.ParseTreeAsWritten | src/object/mod.rs:633-641 | as written (swapped tags): reading never fails outright, and a tree read is ordered by path |
| ModTree.ReadersDisagree | src/object/mod.rs:543-593 | one entry text is accepted by both readers, which give it opposite kinds: `4` is a file as written and a directory with git's modes |
| ModTree.ParseSerialiseTreeAsWritten | src/object/mod.rs:633-668 | as written: a tree written and read back is read whole, and holds exactly the written entries with their paths between quotes, so not the tree written |
| ModTree.DisplayEnt | src/object/mod.rs:561-571 | an entry's display is printable text ending in the Debug form of its path |
| ModTree.DisplayTree | src/object/mod.rs:647-654 | a tree's display is empty for no entries, otherwise ends in a line feed, and holds no NUL |
| ModTree.DisplayIsNotSerialise | src/object/mod.rs:647-660 | for a tree with an entry, the display differs from what `serialise` writes |
| ModRefs.SerialiseTreeRef | src/object/mod.rs:59-62 | `tree ` followed by hex text that decodes to exactly the reference's hash |
| ModRefs.ProvideSizeTreeRef | src/object/mod.rs:59-64 | the reported size is the length of the line written, forty-five bytes |
| ModRefs.ParseTreeRef | src/object/mod.rs:51-58 | as written, with no digest-length check: a line read starts with `tree `, spends forty-five bytes, and its hash is whatever the forty hex bytes decode to, at most twenty bytes; a short line asks for forty-five bytes, a wrong first byte is an error, and a rejected continuation byte panics |
| ModRefs.ParseSerialiseTreeRef | src/object/mod.rs:28-64 | a tree reference written then read is the same reference, leaving what follows |
| ModRefs.SerialiseParent | src/object/mod.rs:99-102 | `parent ` followed by hex text that decodes to exactly the parent's hash |
| ModRefs.ProvideSizeParent | src/object/mod.rs:99-104 | the reported size is the length of the line written, forty-seven bytes |
| ModRefs.ParseParent | src/object/mod.rs:90-98 | as written, with no digest-length check: a line read starts with `parent `, spends forty-seven bytes, and its hash is whatever the forty hex bytes decode to, at most twenty bytes; a short line asks for forty-seven bytes, a wrong first byte is an error, and a rejected continuation byte panics |
| ModRefs.ParseSerialiseParent | src/object/mod.rs:70-104 | a parent written then read is the same parent, leaving what follows |
| ModRefs.ParentLines | src/object/mod.rs:182-187 | one line per parent, in order, each the parent and a newline |
| ModRefs.SerialiseParents | src/object/mod.rs:182-187 | nothing exactly when there are no parents; otherwise the text starts with `parent ` |
| ModRefs.ProvideSizeParents | src/object/mod.rs:174-181 | the reported size is the length of what is written, forty-eight bytes per parent |
| ModRefs.ParseParentLine | src/object/mod.rs:169-171 | a parent line read spends forty-eight bytes ending in a newline, and its hash is what the hex decodes to, with no length check; the reader panics exactly where the parent reader does |
| ModRefs.ParseParentLineOf | src/object/mod.rs:170-187 | a written parent line reads back as its parent |
| ModRefs.ParseParents | src/object/mod.rs:169-173 | reading parents never fails; each parent read spent forty-eight bytes and holds at most twenty bytes of hash; input not starting with `p` gives no parents and consumes nothing |
| ModRefs.ParseParentLines | src/object/mod.rs:169-171 | the repetition of the parent-line reader: each parent read spent forty-eight bytes and holds at most twenty bytes of hash, and a panic happens only on a `parent ` line |
| ModRefs.ParseSerialiseParents | src/object/mod.rs:110-191 | a list of parents written then read is the same list, in order, when what follows is not another parent line |
| ModRefs.SerialiseEncoding | src/object/mod.rs:211-224 | `encoding ` followed by exactly the raw encoding name |
| ModRefs.ProvideSizeEncoding | src/object/mod.rs:222 | the reported size is the length of what is written |
| ModRefs.ParseStringEol | src/object/mod.rs:207-285 | success exactly when the first byte is an encoding character; the longest such run is taken, and empty input is incomplete |
| ModRefs.ParseStringEolOf | src/object/mod.rs:283-285 | a run of encoding characters ending where the input stops being one reads back whole |
| ModRefs.ParseEncoding | src/object/mod.rs:215-220 | an encoding read follows `encoding `, is a non-empty run of valid characters, and is exactly what was consumed; any other nine-byte start is an error |
| ModRefs.ParseSerialiseEncoding | src/object/mod.rs:202-227 | an encoding written then read is the same encoding |
| ModExtras.Lines | src/object/mod.rs:274-306 | `str::lines`: no line holds a newline |
| ModExtras.LinesJoined | src/object/mod.rs:274-290 | a value the parser builds, split back into lines, gives the lines it was built from |
| ModExtras.LinesDropsCR | src/object/mod.rs:274-276 | a carriage return before a newline is dropped with it: `a\r\nb` has the lines `a` and `b` |
| ModExtras.ContinuationLines | src/object/mod.rs:274-276 | one line per value line, each a space, the line and a newline |
| ModExtras.DisplayChunks | src/object/mod.rs:270-280 | one piece per entry, in key order, each that entry's display |
| ModExtras.Display | src/object/mod.rs:270-280 | the display is empty exactly when there are no extras |
| ModExtras.LinesSize | src/object/mod.rs:306-308 | the count of the continuation lines is their length |
| ModExtras.ProvideSize | src/object/mod.rs:301-311 | the reported size is the length of the display |
| ModExtras.DisplayFirstKey | src/object/mod.rs:270-273 | a non-empty display starts with the first key and a newline |
| ModExtras.ParseContinuation | src/object/mod.rs:289 | a continuation read is a space, a run of valid characters and a newline; a line not starting with a space is an error |
| ModExtras.ParseContinuationOf | src/object/mod.rs:289-290 | a written continuation line reads back as its text |
| ModExtras.ParseExtra | src/object/mod.rs:286-293 | an entry read has a key of valid characters and consumes input; a first byte that is not a valid character is an error |
| ModExtras.ParseContinuations | src/object/mod.rs:289-290 | all continuation lines written one after the other are read back, in order |
| ModExtras.ParseExtraOf | src/object/mod.rs:270-293 | a well-formed entry displayed then read is the same entry |
| ModExtras.ParseExtraSteps | src/object/mod.rs:286-293 | a key line followed by continuation lines reads as the key with those lines joined |
| ModExtras.FromPairs | src/object/mod.rs:295-300 | the map built is ordered by key with each key once, and holds exactly the keys read |
| ModExtras.FromPairsLastWins | src/object/mod.rs:297 | for a key read more than once, the value read last is kept |
| ModExtras.FromPairsSorted | src/object/mod.rs:297 | entries already in ascending key order are kept as they are |
| ModExtras.Parse | src/object/mod.rs:295-300 | reading extras never fails; the result is a map ordered by key, and input not starting with a valid character gives no extras |
| ModExtras.ParseDisplay | src/object/mod.rs:270-316 | well-formed extras displayed then read are the same extras, leaving what follows |
| ModCommit.Serialise | src/object/mod.rs:360-374 | a commit is written starting with `tree ` and ending with its message |
| ModCommit.ProvideSizeAsWritten | src/object/mod.rs:350-374 | as written: every commit written is one byte longer than the size reported for it, the newline after the extras being left out |
| ModCommit.ProvideSize | src/object/mod.rs:351-359 | corrected: the size counts the newline after the extras too, and is the length of what is written |
| ModCommit.ParseHead | src/object/mod.rs:319-320 | a head read starts with `tree ` and a newline forty-five bytes in, its tree hash is what the hex decodes to with no length check, and it consumes input; the head reader panics where the tree reader does |
| ModCommit.ParsePeople | src/object/mod.rs:321-322 | reading the people consumes input |
| ModCommit.ParseEncodingLine | src/object/mod.rs:323 | an encoding line read is exactly the encoding written and a newline |
| ModCommit.ParseTail | src/object/mod.rs:323-326 | a tail read consumes everything, its message is non-empty UTF-8, and its extras are ordered by key |
| ModCommit.Parse | src/object/mod.rs:318-337 | a commit read consumes everything, starts with `tree `, has hashes of at most twenty bytes (no length check), extras ordered by key and a non-empty UTF-8 message; a panic happens only after `tree ` |
| ModCommit.ParseHeadOf | src/object/mod.rs:319-363 | the tree line and parent lines written are read back, up to a line not starting with `p` |
| ModCommit.ParsePeopleOf | src/object/mod.rs:321-365 | the author and committer lines written, dates as the source writes them, are read back |
| ModCommit.ParsePeopleSteps | src/object/mod.rs:321-322 | an author, a newline, a committer and a newline read as that pair |
| ModCommit.NotEncoding | src/object/mod.rs:215-323 | a newline among the first nine bytes is no encoding line |
| ModCommit.NoEncodingLine | src/object/mod.rs:323-326 | without an encoding, the extras, empty line and message are not mistaken for one, unless the first extra looks like one |
| ModCommit.ParseEncodingOptOf | src/object/mod.rs:323-369 | the optional encoding is read back as it was written, present or absent |
| ModCommit.ParseTailOf | src/object/mod.rs:323-373 | the encoding, extras, empty line and message written are read back |
| ModCommit.MessageOf | src/object/mod.rs:324-326 | after the extras and the empty line the whole rest is the message |
| ModCommit.ParseSerialise | src/object/mod.rs:318-378 | a well-formed commit written as the source writes it, then read, is the same commit, with nothing left |
| ModObject.BodyAsWritten | src/object/mod.rs:765-791 | as written: the body a commit writes is one byte longer than the size it reports, and a tree's at least twenty bytes per entry longer |
| ModObject.SerialiseAsWritten | src/object/mod.rs:778-791 | as written: the object text starts with its keyword and ends with the body as written |
| ModObject.HeaderUndercounts | src/object/mod.rs:765-802 | as written: the header written is read back as naming the reported size, which falls short of the body that follows by one byte for a commit and by at least twenty bytes per entry for a tree |
| ModObject.ToText | src/object/mod.rs:753-759 | a commit's text is exactly what `serialise` writes after the header; a tree's text holds no NUL and so differs from what `serialise` writes for a tree with an entry |
| ModObject.ProvideSizeShort | src/object/mod.rs:765-791 | as written: a commit object is one byte longer than the size reported for it, and a tree object at least one byte plus twenty per entry longer |
| ModObject.Body | src/object/mod.rs:769-786 | corrected: the body's length is the corrected size, and a commit's body is what the source writes |
| ModObject.Serialise | src/object/mod.rs:778-791 | corrected: an object is written as its keyword, the true length of its corrected body in decimal, a NUL, then the body |
| ModObject.ProvideSize | src/object/mod.rs:765-777 | corrected: the size is the length of what is written, for either kind |
| ModObject.ParseHeader | src/object/mod.rs:793-802 | a header read is the keyword, a non-empty run of digits and a NUL, the digits being all that is kept |
| ModObject.ParseHeaderOf | src/object/mod.rs:793-802 | a keyword, any run of digits and a NUL are read as a header, whatever follows |
| ModObject.ParseObjectType | src/object/mod.rs:803-807 | the kind read matches the keyword the input starts with, some input is consumed, and input starting with neither keyword's first byte is an error |
| ModObject.ParseObjectTypeOf | src/object/mod.rs:793-807 | the header of either kind is read as that kind, with any digits for the size |
| ModObject.ParseAsWritten | src/object/mod.rs:818-826 | as written: a commit object read starts with `commit ` and leaves nothing; a tree object read starts with `tree ` and is ordered by path; neither first byte is an error |
| ModObject.ParseSerialiseAsWritten | src/object/mod.rs:765-826 | as written: an object written and read back is read whole; a commit is itself, and a tree holds exactly its entries with their paths between quotes |
| ModObject.Parse | src/object/mod.rs:818-826 | corrected (git's tree tags): a commit object read starts with `commit ` and leaves nothing; a tree object read starts with `tree ` and is ordered by path; neither first byte is an error |
| ModObject.ParseIgnoresSize | src/object/mod.rs:793-826 | corrected: a well-formed object is read back as itself behind a header giving any size at all |
| ModObject.ParseSerialise | src/object/mod.rs:765-826 | corrected: a well-formed object written then read is the same object, with nothing left |
| LegacyObject.TzNumber | src/object.rs:66-71 | the printed offset has the sign of the offset, and its magnitude is the clock number `HHMM` of the offset's magnitude |
| LegacyObject.ParseDate | src/object.rs:47-64 | a date read has non-negative seconds within `i64` and consumes input; a first byte that is not a digit is an error |
| LegacyObject.ParseTzNumber | src/object.rs:38-73 | a printed offset read back by the sign and digit parser, with the hundreds read as hours and the rest as minutes, is the offset |
| LegacyObject.ParseDisplayDate | src/object.rs:54-73 | a date with non-negative `i64` seconds and an offset whose clock number fits `i64`, printed then read, is the same date, with what follows left over |
| LegacyObject.ParseDateSteps | src/object.rs:54-64 | the date parser is the seconds, one space, then the offset |
| LegacyObject.NegativeElapsedUnreadable | src/object.rs:47-73 | a date before the epoch is printed with a minus sign the digit parser refuses |
| LegacyObject.DateDocExample | src/object.rs:21-28 | the documented date printed and read with `parse_bytes` is the same date |
| LegacyObject.ParseBytesDisplayDate | src/object.rs:21-76 | any readable date survives `parse_bytes` of its printed form |
| LegacyObject.ParsePerson | src/object.rs:118-124 | a person read has a UTF-8 name without ` <`, a UTF-8 email without `> `, a date after the epoch, and consumes input |
| LegacyObject.ParseDisplayPerson | src/object.rs:84-130 | a readable person printed then read is the same person |
| LegacyObject.ParsePersonSteps | src/object.rs:118-124 | the person parser is the name up to the first ` <`, the email up to the next `> `, then the date |
| LegacyObject.ParsePersonParts | src/object.rs:118-124 | a name without ` <`, ` <`, an email without `> `, `> ` and a readable date read as that person |
| LegacyObject.ParseHeader | src/object.rs:196 | a header read starts with `commit `, holds at least a digit and a NUL, and consumes input |
| LegacyObject.ParseHeaderOf | src/object.rs:196 | the object header of a commit of any size is read past, so the size written is never checked |
| LegacyObject.ParsePersonLine | src/object.rs:199-200 | a person line read consumes input |
| LegacyObject.ParsePersonLineOf | src/object.rs:199-200 | a keyword, a readable person and a newline read back as the person |
| LegacyObject.ParseEncodingAsWritten | src/object.rs:171-176 | an encoding read is the UTF-8 text between `encoding ` and what is left, and the newline is left unread |
| LegacyObject.ParseEncoding | src/object.rs:171-201 | the corrected encoding line is UTF-8 text and consumes input |
| LegacyObject.ParseEncodingAsWrittenOf | src/object.rs:171-176 | an encoding line written is read with its newline still in front of what follows |
| LegacyObject.ParseEncodingOf | src/object.rs:171-176 | with the newline consumed, an encoding line written is read back whole |
| LegacyObject.NotEncoding | src/object.rs:172 | a newline among the first nine bytes is no encoding line |
| LegacyObject.ParseStringEol | src/object.rs:177-180 | a run read is a non-empty UTF-8 line, exactly what was consumed; a leading newline is an error |
| LegacyObject.ParseStringEolOf | src/object.rs:177-180 | a line followed by a newline or the end reads back whole |
| LegacyObject.ParseExtra | src/object.rs:181-186 | an entry read is a key line and a value line, both non-empty, and consumes input; a leading newline is an error |
| LegacyObject.ParseExtraOf | src/object.rs:181-186 | a key line and value line written read back as that pair |
| LegacyObject.ExtraChunks | src/object.rs:181-186 | one piece per entry, each its key line and value line |
| LegacyObject.ParseExtras | src/object.rs:188-193 | reading extras never fails; the result is ordered by key with each key once, and a leading newline gives no extras |
| LegacyObject.ParseExtrasOf | src/object.rs:188-193 | entries read in any order build the key-ordered map in which, for a repeated key, the last value read wins |
| LegacyObject.ParseExtraChunks | src/object.rs:190 | all entries written one after the other are read, in order |
| LegacyObject.ParseExtraChunk | src/object.rs:190 | one entry of a run is read, leaving the entries after it |
| LegacyObject.ExtrasTextValid | src/object.rs:179 | extras of UTF-8 lines are UTF-8 text |
| LegacyObject.ParsePrefix | src/object.rs:196-200 | the header, tree, parents and people read start with `commit ` and consume input; the hashes are what the hex decodes to, at most twenty bytes, with no length check, and a panic happens only after `commit ` |
| LegacyObject.ParseRemainder | src/object.rs:202-204 | the extras, empty line and message consume everything, with ordered extras and a non-empty UTF-8 message |
| LegacyObject.ParseTailAsWritten | src/object.rs:201-204 | the tail as written consumes everything and has a non-empty UTF-8 message |
| LegacyObject.ParseTail | src/object.rs:201-204 | the corrected tail consumes everything, has ordered extras and a non-empty UTF-8 message |
| LegacyObject.ParseAsWritten | src/object.rs:195-215 | a commit read as written consumes everything, starts with `commit `, has hashes of at most twenty bytes (no length check), ordered extras and a non-empty UTF-8 message |
| LegacyObject.Parse | src/object.rs:195-215 | corrected (encoding line consumed with its newline): a commit read consumes everything, starts with `commit `, has hashes of at most twenty bytes, ordered extras and a non-empty UTF-8 message |
| LegacyObject.ParseResult | src/object.rs:243-251 | `Commit::parse` on the parser as written: a commit returned has a non-empty UTF-8 message and ordered extras and came from a buffer starting with `commit `; every failure is `ParsingErrorUnknown`, and a buffer shorter than `commit ` fails |
| LegacyObject.ParsePrefixOf | src/object.rs:160-200 | the header, tree line, parents in order and both person lines written are read back |
| LegacyObject.ParsePrefixSteps | src/object.rs:196-200 | the prefix parser is the header, the head, then the author and committer lines |
| LegacyObject.ParseRemainderOf | src/object.rs:202-204 | ordered extras, the empty line and a message are read back |
| LegacyObject.ParseRemainderSteps | src/object.rs:202-204 | after the extras and the empty line, the whole rest is the message |
| LegacyObject.ParseRemainderSwallows | src/object.rs:188-204 | a newline left in front of the extras ends them at once, so they and the empty line are read into the message |
| LegacyObject.NoEncodingOf | src/object.rs:201 | without an encoding, the extras and message are not mistaken for one by either encoding parser, unless the first key looks like one |
| LegacyObject.ParseTailSteps | src/object.rs:201-204 | the corrected tail is the encoding step then the remainder |
| LegacyObject.ParseTailAsWrittenSteps | src/object.rs:201-204 | the tail as written is the encoding step then the remainder |
| LegacyObject.ParseTailNone | src/object.rs:201-204 | without an encoding both tail parsers read back the extras and message |
| LegacyObject.ParseTailOf | src/object.rs:201-204 | the corrected tail written is read back, with or without an encoding |
| LegacyObject.ParseRender | src/object.rs:195-226 | corrected: a well-formed commit stored then read by the corrected parser is the same commit |
| LegacyObject.ParseResultRender | src/object.rs:243-251 | `Commit::parse` gives back a well-formed stored commit with its encoding's extras swallowed into the message, and gives back the commit itself exactly when it has no encoding line |
| LegacyObject.ParseTailAsWrittenOf | src/object.rs:171-204 | with an encoding line, the tail as written reads no extras, and the extras and empty line end up in the message |
| LegacyObject.ParseAsWrittenSwallows | src/object.rs:171-215 | the parser as written reads a stored commit as the commit whose extras and empty line, after an encoding line, have gone into the message |
| LegacyObject.ParseAsWrittenRender | src/object.rs:195-215 | the parser as written reads a stored commit back as itself exactly when it has no encoding line |
| Timezone.Clock | src/object_backup/elements/date.rs:33-37 | the clock number of an offset keeps the hours in its hundreds and the minutes, below sixty, in its last two digits |
| Timezone.MinutesClock | src/object_backup/elements/date.rs:33-122 | reading a clock number back, hundreds as hours, gives the minutes again |
| Timezone.ClockMinutes | src/object_backup/elements/date.rs:119-122 | a clock number whose last two digits are below sixty is the clock number of what it reads as |
| Timezone.TextAsWritten | src/object_backup/elements/date.rs:32-38 | the offset as the source writes it: the sign of the offset, then digits only |
| Timezone.TextAsWrittenDropsZeros | src/object_backup/elements/date.rs:36-37 | UTC is written `+00` and five minutes east `+05`, where git writes `+0000` and `+0005` |
| Timezone.TextAsWrittenSmall | src/object_backup/elements/date.rs:36-37 | below ten minutes east the text is a plus, one zero and one digit |
| Timezone.Digits2 | src/object_backup/elements/date.rs:37 | two digits whose value is the number |
| Timezone.Hours | src/object_backup/elements/date.rs:36-37 | at least two digits whose value is the hours, exactly two below a hundred |
| Timezone.Text | src/object_backup/elements/date.rs:32-38 | the corrected text: the sign of the offset then at least four digits, exactly four below a hundred hours |
| Timezone.ValueTwoMore | src/object_backup/elements/date.rs:37 | two more digits multiply the value read so far by a hundred and add theirs |
| Timezone.TextDigits | src/object_backup/elements/date.rs:33-37 | the digits of the text read as the clock number of the offset's magnitude |
| Timezone.ParseSign | src/object_backup/elements/date.rs:97-105 | `-` reads as minus one, `+` as one, and anything else as one with nothing consumed; only empty input is incomplete |
| Timezone.Parse | src/object_backup/elements/date.rs:116-124 | a leading `-` gives an offset at most zero and anything else one at least zero; input that is empty or only a sign is incomplete |
| Timezone.ParseSignOf | src/object_backup/elements/date.rs:33-105 | the sign written reads as the sign of the offset |
| Timezone.ParseSigned | src/object_backup/elements/date.rs:116-124 | a sign followed by any digit run whose value is the clock number reads as the offset |
| Timezone.ParseText | src/object_backup/elements/date.rs:31-124 | an offset written then read is the same offset, minutes below sixty staying below a hundred |
| Timezone.ParseTextAsWritten | src/object_backup/elements/date.rs:31-124 | the text as the source writes it reads back as the offset too |
| BackupDate.SerialiseElapsed | src/object_backup/elements/date.rs:13-16 | the seconds are written as digits alone exactly when they are not negative |
| BackupDate.ParseElapsed | src/object_backup/elements/date.rs:106-115 | seconds read are a non-negative `i64`; only empty input is incomplete, and a first byte that is not a digit is an error |
| BackupDate.ParseSerialiseElapsed | src/object_backup/elements/date.rs:13-115 | non-negative seconds written then read are the same seconds |
| BackupDate.NegativeElapsedUnread | src/object_backup/elements/date.rs:13-115 | negative seconds are written with a minus sign the parser refuses |
| BackupDate.SerialiseTimezone | src/object_backup/elements/date.rs:31-38 | as written: the sign of the offset then at least two digits, whose value is the clock number of the offset's magnitude |
| BackupDate.ParseTimezone | src/object_backup/elements/date.rs:116-124 | a timezone read consumes input; empty input or a lone sign is incomplete |
| BackupDate.ParseSerialiseTimezone | src/object_backup/elements/date.rs:31-124 | a timezone written as the source writes it, `+00` for UTC included, then read is the same timezone |
| BackupDate.Serialise | src/object_backup/elements/date.rs:83-86 | as written: the seconds, one space, then the sign and the digits of the clock number of the offset |
| BackupDate.ProvideSize | src/object_backup/elements/date.rs:83-87 | the size is the length of the seconds text, one space and the offset text as written |
| BackupDate.Parse | src/object_backup/elements/date.rs:125-132 | a date read has non-negative seconds and consumes input; a first byte that is not a digit is an error |
| BackupDate.ParseSerialise | src/object_backup/elements/date.rs:83-132 | a date with non-negative seconds written as the source writes it, then read, is the same date |
| ElementsDate.Serialise | src/object/elements/date.rs:61-67 | as written: the seconds, one space, the sign, then digits whose value is the clock number of the offset; a non-negative time starts with a digit |
| ElementsDate.SerialiseDropsZeros | src/object/elements/date.rs:61-67 | the epoch at UTC is written `0 +00`, where git writes `0 +0000` |
| ElementsDate.SerialiseGit | src/object/elements/date.rs:61-67 | corrected: git's text, at least seven bytes, and exactly six more than the seconds below a hundred hours of offset |
| ElementsDate.ParseSerialiseGit | src/object/elements/date.rs:25-67 | corrected: a date with non-negative seconds written with git's offset then read is the same date |
| ElementsDate.Display | src/object/elements/date.rs:56-60 | the seconds, then `s` and a space, then the offset in plain minutes |
| ElementsDate.DisplayIsNotSerialise | src/object/elements/date.rs:56-67 | the Display text is never the serialised text |
| ElementsDate.ProvideSizeAsWritten | src/object/elements/date.rs:56-69 | the size reported is the length of the Display text, seconds, `s`, a space and the offset in plain minutes |
| ElementsDate.ProvideSizeMiscounts | src/object/elements/date.rs:56-69 | for an offset of sixty minutes at the epoch, five bytes are reported for seven written |
| ElementsDate.ProvideSize | src/object/elements/date.rs:61-69 | corrected: the length of the seconds, a space and the offset as written, which is the length of what is written |
| ElementsDate.Parse | src/object/elements/date.rs:37-54 | a date read has non-negative `i64` seconds and consumes input; a first byte that is not a digit is an error |
| ElementsDate.ParseSerialise | src/object/elements/date.rs:25-68 | a date with non-negative seconds written as the source writes it, then read, is the same date, with the timezone first as `Date::new` takes it |
| BackupPerson.Serialise | src/object_backup/elements/person.rs:53-55 | the name comes first, followed by ` <`, and the date as written comes last |
| BackupPerson.ProvideSize | src/object_backup/elements/person.rs:49-56 | the size is the length of what is written, the date as written included |
| BackupPerson.Parse | src/object_backup/elements/person.rs:35-41 | a person read has a UTF-8 name without ` <`, a UTF-8 email without `> `, non-negative seconds, and consumes input |
| BackupPerson.ParseSerialise | src/object_backup/elements/person.rs:35-56 | a person whose name has no ` <`, email no `> `, and seconds are non-negative, written as the source writes it, then read, is the same person |
| BackupPerson.ParseSteps | src/object_backup/elements/person.rs:35-41 | the person parser is the name up to the first ` <`, the email up to the next `> `, then the date |
| BackupPerson.SerialiseAuthor | src/object_backup/elements/person.rs:96-101 | `author ` followed by exactly the person's text |
| BackupPerson.ProvideSizeAuthor | src/object_backup/elements/person.rs:96-101 | the size of an author line is its length as written |
| BackupPerson.ParseAuthor | src/object_backup/elements/person.rs:90-95 | an author read starts with `author ` and something after it |
| BackupPerson.ParseSerialiseAuthor | src/object_backup/elements/person.rs:61-104 | an author written as the source writes it, then read, is the same author |
| BackupPerson.SerialiseCommitter | src/object_backup/elements/person.rs:140-145 | `committer ` followed by exactly the person's text |
| BackupPerson.ProvideSizeCommitter | src/object_backup/elements/person.rs:140-145 | the size of a committer line is its length as written |
| BackupPerson.ParseCommitter | src/object_backup/elements/person.rs:134-139 | a committer read starts with `committer ` and something after it |
| BackupPerson.ParseSerialiseCommitter | src/object_backup/elements/person.rs:105-148 | a committer written as the source writes it, then read, is the same committer |
| ObjectPerson.NameEmail | src/object/person.rs:122-124 | `name <email> ` is four bytes longer than the name and email |
| ObjectPerson.Encode | src/object/person.rs:138-143 | the count returned is the number of bytes written, which start with `name <email> ` |
| ObjectPerson.RequiredSize | src/object/person.rs:135-137 | the size equals the count `encode` returns whenever the date's own size is honest |
| ObjectPerson.Decode | src/object/person.rs:146-152 | a person read has a UTF-8 name without ` <` and a UTF-8 email without `> ` |
| ObjectPerson.DecodeEncode | src/object/person.rs:131-168 | a person encoded then decoded is the same person, given that the date codec gives its date back |
| Decimal.Render | src/object_backup/elements/date.rs:15 | the decimal text of a number: digits only, no leading zero, whose value is the number |
| Decimal.RenderInt | src/object_backup/elements/date.rs:15 | the decimal text of an integer starts with a minus sign exactly when it is negative, and is digits only otherwise |
| Decimal.RenderInjective | src/object_backup/elements/date.rs:15 | different numbers have different texts |
| Decimal.RenderValue | src/object_backup/elements/date.rs:106-112 | a digit run without a leading zero is the text of its value |
| Decimal.ValueLeadingNonZero | src/object_backup/elements/date.rs:106-112 | a digit run starting with a non-zero digit has a positive value |
| Decimal.ValueLeadingZero | src/object_backup/elements/date.rs:36-112 | a leading zero does not change the value read |
| BigEndian.Value | src/protocol/serialise.rs:105-122 | the value of `k` bytes is below 256 to the power `k` |
| BigEndian.EncodeValue | src/protocol/serialise.rs:105-122 | the value of some bytes, written in as many bytes, is those bytes |
| BigEndian.ValueAppend | src/protocol/serialise.rs:107-121 | a wide number is its high bytes shifted over its low bytes |
| Serialise.ReadU8 | src/protocol/serialise.rs:99-104 | one byte is read and consumed; an empty stream is an unexpected end |
| Serialise.ReadU16 | src/protocol/serialise.rs:105-110 | two bytes are read big-endian and consumed; fewer is an unexpected end |
| Serialise.ReadU32 | src/protocol/serialise.rs:111-116 | four bytes are read big-endian and consumed; fewer is an unexpected end |
| Serialise.ReadU64 | src/protocol/serialise.rs:117-122 | eight bytes are read big-endian and consumed; fewer is an unexpected end |
| Serialise.Joined | src/protocol/serialise.rs:107-121 | reading `m` bytes then `n` more is reading `m + n` bytes |
| Serialise.Signed | src/protocol/serialise.rs:123-138 | the signed reading is within the range of its width, agrees with the unsigned one modulo its width, and is negative exactly when the top bit is set |
| Serialise.ReadSigned | src/protocol/serialise.rs:123-138 | the signed readers consume the same bytes as the unsigned reader of their width and reinterpret its value |
| Serialise.ReadString | src/protocol/serialise.rs:91-97 | success exactly when the stream starts with the literal, then the rest is returned; bytes that are not UTF-8 are invalid data |
| Serialise.ReadStringOf | src/protocol/serialise.rs:91-151 | a literal is read back, whatever follows it |
| Serialise.ReadStrings | src/protocol/serialise.rs:153-162 | literals of a text are read back one after the other |
| Serialise.Or | src/protocol/serialise.rs:33-41 | a decoded value passes through unchanged, and an invalid result hands its reader to the fallback |
| Serialise.OrAssociative | src/protocol/serialise.rs:33-41 | trying one fallback then another is trying the first with the second as its own fallback |
| Serialise.SerialiseBytes | src/protocol/serialise.rs:52-57 | the bytes are appended to what the writer holds |
| Serialise.DeserialiseBytes | src/protocol/serialise.rs:58-66 | every byte left in the reader is read, leaving it empty |
| Serialise.SerialiseString | src/protocol/serialise.rs:69-74 | the text's bytes are appended to what the writer holds |
| Serialise.DeserialiseString | src/protocol/serialise.rs:75-83 | everything left is read exactly when it is UTF-8; otherwise it is invalid data |
| Serialise.SerialiseRoundTrip | src/protocol/serialise.rs:52-84 | bytes, and any UTF-8 text, written into an empty writer are read back the same, the empty value included |
| PackIndex.Size | src/fs/pack/index.rs:56 | the object count is the last fan-out entry |
| PackIndex.NumbersWithPrefix | src/fs/pack/index.rs:58-64 | the count for prefix 0 is the first fan-out entry, and for any other prefix the step from the previous entry; a decreasing step, where the `u32` subtraction overflows, gives no count (the debug-build panic) |
| PackIndex.NumbersWithPrefixWrapping | src/fs/pack/index.rs:58-64 | the release-build count: below 2^32, the step itself when the fan-out does not decrease, and the step plus 2^32 when it does |
| PackIndex.CountBelowIsFanout | src/fs/pack/index.rs:56-64 | the per-prefix counts of the first `n + 1` prefixes add up to fan-out entry `n` |
| PackIndex.PrefixCountsSum | src/fs/pack/index.rs:56-64 | the per-prefix counts of all 256 prefixes add up to the object count |
| PackIndex.Offsets | src/fs/pack/index.rs:11-74 | the digest table starts after the 1032-byte header, the CRC table one digest per object later, and the offset table four bytes per object after that |
| PackIndex.CmpSeq | src/fs/pack/index.rs:40-45 | two slices compare equal exactly when they are equal |
| PackIndex.HeaderCmp | src/fs/pack/index.rs:38-47 | the order of headers, magic first, calls two headers equal exactly when they are equal |
| PackIndex.HeaderEqAsWritten | src/fs/pack/index.rs:24-30 | as written: two headers are equal exactly when their versions and fan-out tables are, whatever their magic |
| PackIndex.HeaderEqIgnoresMagic | src/fs/pack/index.rs:24-30 | two headers that differ only in their magic are equal for `==` but not for the order |
| PackIndex.HeaderEq | src/fs/pack/index.rs:24-47 | corrected: equality holds exactly when the headers are equal, and agrees with the order |
| PackIndex.U32 | src/fs/pack/index.rs:77-79 | four bytes are read big-endian and consumed; fewer ask for four |
| PackIndex.U64 | src/fs/pack/index.rs:170 | eight bytes are read big-endian and consumed; fewer ask for eight |
| PackIndex.CountU32 | src/fs/pack/index.rs:80-166 | `n` 32-bit values are read when there are `4n` bytes; otherwise more input is asked for |
| PackIndex.CountDigests | src/fs/pack/index.rs:164 | `n` full digests are read when there are enough bytes; fewer panic |
| PackIndex.ParseHeader | src/fs/pack/index.rs:77-89 | the header is read exactly when 1032 bytes are there, and consumes them |
| PackIndex.ResolveLarge | src/fs/pack/index.rs:167-174 | every offset gets a value; a short 64-bit table asks for eight bytes |
| PackIndex.ResolveLargeKeepsSmall | src/fs/pack/index.rs:167-169 | offsets without the top bit are kept as they are |
| PackIndex.ParseIndex | src/fs/pack/index.rs:162-178 | an index read has as many digests, CRCs and offsets as its header counts, and full pack and index digests |
| PackIndex.ParseBody | src/fs/pack/index.rs:164-177 | what follows the header is read into tables as long as the header counts, and keeps that header |
| PackIndex.ParseTables | src/fs/pack/index.rs:164-166 | the three tables read are `n` entries long, with full digests |
| PackIndex.ParseTrailer | src/fs/pack/index.rs:167-176 | after the large offsets come the pack and index digests, both full, and every offset is kept |
| PackIndex.EncodeHeader | src/fs/pack/index.rs:11-12 | the header written is 1032 bytes |
| PackIndex.SmallOffsets | src/fs/pack/index.rs:167-169 | one 32-bit entry per offset |
| PackIndex.SmallOffsetsKeep | src/fs/pack/index.rs:167-169 | a small offset is written as itself and a large one as an escape with the top bit set |
| PackIndex.OffsetsLayout | src/fs/pack/index.rs:67-166 | the three offsets of a header name where the digest, CRC and offset tables of a written index start |
| PackIndex.CountU32Of | src/fs/pack/index.rs:165-166 | 32-bit values written big-endian are read back |
| PackIndex.U32Of | src/fs/pack/index.rs:77 | a 32-bit value written big-endian is read back |
| PackIndex.U64Of | src/fs/pack/index.rs:170 | a 64-bit value written big-endian is read back |
| PackIndex.CountDigestsOf | src/fs/pack/index.rs:164 | digests written one after the other are read back |
| PackIndex.ResolveLargeOf | src/fs/pack/index.rs:167-174 | the written offset tables resolve to the offsets, each large one read from the 64-bit table in order |
| PackIndex.ParseHeaderOf | src/fs/pack/index.rs:77-89 | a header written is read back |
| PackIndex.ParseEncodeIndex | src/fs/pack/index.rs:162-178 | a well-formed index written in the layout is read back, leaving what follows |
| PackIndex.ParseTablesOf | src/fs/pack/index.rs:164-166 | the written tables are read back |
| PackIndex.ParseTrailerOf | src/fs/pack/index.rs:167-176 | the written large offsets and checksums are read back |
| PackIndex.IndexName | src/fs/pack/index.rs:121-130 | a name is considered exactly when it starts with `pack-` and ends with `.idx`, and then its middle is read as hex into a digest |
| PackIndex.PrefixSuffixApart | src/fs/pack/index.rs:123-126 | a name that passes the filter is long enough that its middle can be cut out |
| PackIndex.IndexNameOf | src/fs/pack/index.rs:121-130 | the name of the index of a digest gives that digest back |
| Hashing.Equal | src/hash.rs:33-35 | any two hashers compare equal |
| Hashing.EqualIgnoresWritten | src/hash.rs:33-35 | two hashers fed different bytes still compare equal, both ways round |
| Hashing.WrittenUnique | src/hash.rs:17-27 | an object's chunks determine what is written to the hasher |
| Hashing.Hash | src/hash.rs:17-27 | chunks 0, 1, ... are written in order, at most a hundred, none of them empty, stopping at the first empty one; the result is the digest of everything written |
| Hashing.NewBlob | src/object.rs:257-271 | a blob keeps its data, and its size field is decimal digits whose value is the data's length |
| Hashing.BlobWritesOf | src/object/mod.rs:852-861 | a blob hands over `blob `, its length, a NUL and its data, the data only when non-empty |
| Hashing.BlobHashInput | src/object.rs:276-286 | everything written for a blob is git's loose-object header followed by the data, in four chunks, or three for empty data |
| GitHash.PrefixWithinDigest | src/git/hash.rs:46-49 | the prefix is at least one byte and no longer than the digest |
| GitHash.FromArray | src/git/hash.rs:84-90 | twenty bytes given are stored unchanged, as `new_with` stores them |
| GitHash.Prefix | src/git/hash.rs:76-78 | the prefix is `PREFIX_SIZE` bytes, and prefix then loose is the whole digest |
| GitHash.Loose | src/git/hash.rs:78 | the loose part is the digest less its prefix |
| GitHash.WrittenUnique | src/git/hash.rs:35-43 | an object's chunks determine what is written to the hasher |
| GitHash.Hash | src/git/hash.rs:35-43 | each chunk there is gets written in order until the first missing one, chunks 0 to 100 at most, so up to 101; the result stores the twenty-byte digest of everything written |
| GitObject.Chunk | src/git/object.rs:20-27 | only chunk 0 exists, and it is as long as `blob `, the decimal length and a NUL, plus the data |
| GitObject.HashInput | src/git/object.rs:20-27 | exactly one chunk reaches the hasher, and it is git's loose-object header followed by the data |
| Repo.FollowLinks | src/protocol/repo.rs:27-32 | with steps left, a reference read as an identifier or an error gives that answer unchanged; with no steps left there is no answer |
| Repo.ResolvedAlongChain | src/protocol/repo.rs:27-32 | an answer is the outcome of reading the reference at the end of a chain of links, fewer than the steps allowed |
| Repo.ChainResolves | src/protocol/repo.rs:27-32 | a chain of `n` links ending in an identifier or an error is resolved in `n + 1` steps |
| Repo.FollowLinksMonotone | src/protocol/repo.rs:27-32 | more steps change nothing once an answer is found |
| Repo.SelfLinkUnresolved | src/protocol/repo.rs:27-32 | a reference that links to itself is never resolved, however many steps are allowed |
| Repo.GetObjectRef | src/protocol/repo.rs:42-48 | an identifier is looked up directly without reading references; a link has an answer exactly when it resolves |
| Repo.GetObjectRefLink | src/protocol/repo.rs:42-48 | a link gives the object of the identifier it resolves to, or the error met resolving it |
| Repo.GetHead | src/protocol/repo.rs:50 | `HEAD` is read without following a link: an identifier or error is what one step of link following gives |

## Left out

- SHA-1 itself is a parameter of the hashing members; zlib compression, the file system, the command-line program and reading of loose and packed objects are not part of this model.
- Paths are ordered and compared byte by byte, where Rust's `PathBuf` compares component by component: `a` and `a/` are one key of the source's sets but two here, and `a/b` sorts before `a-b` there but after it here. Tree entries hold single-component paths without a trailing slash, for which the two orders agree.
- Refs.Display: a name is its list of components, so a name given with a trailing `/`, a doubled `//` or a `/./` is displayed normalized, where the source prints the path as it was stored.
- ProtocolHash.EncodeHex: corrected; the source's count is EncodeHexAsWritten, which EncodeHexMiscounts shows is not the number of bytes written.
- The `Debug` form of a path is modelled for plain paths only (no quote, backslash or control byte), the paths for which it is the path in quotes.
- `Display` of a tree entry and of a tree in `src/object/tree.rs` is debugging output and is not modelled; the one of `src/object/mod.rs` is.
- Iterators, `Deref`, `FromIterator`, `Clone`, `new_with` and the plain accessors are the identity on immutable values and have no member of their own.
- `From<&str>` of the blobs and hashes: a string is the bytes of its UTF-8 encoding, so it is the byte-slice conversion.
- Vector capacities, which some tests of `src/object/tree.rs` check, are not modelled.
- The protocol repository is generic in its hash; the model fixes it to the twenty-byte identifier.
- Repo.FollowLinks: following links takes a number of steps as fuel, so a cycle of links gives no answer instead of looping forever as the source does.
- The abstract store operations (`get_ref`, `get_object`, the listings, `is_valid`, `get_description`) are parameters, not modelled.
- Objectable.ParseBytes: a panic inside the parser never returns, so the mapping is stated for the other outcomes.
- ModExtras.Lines: `str::lines` is modelled on bytes: a line ends at a line feed and loses one carriage return before it; a lone carriage return elsewhere stays in the line, as in the source.
- LegacyObject.Parse: the size in the `commit <size>\0` header is read but not compared with the body, as in the source.
- The doc example of `src/object.rs` passes the time zone and the elapsed seconds swapped; the model uses the argument order of the constructor.
- BackupDate.Parse: 64-bit overflow of the elapsed seconds and offsets is excluded by preconditions instead of wrapping.
- The message strings of `ParsingErrorUnknown` are not modelled; only the kind of error is.
- LegacyObject.Render: the commit writer of `src/object.rs` is commented out in the source, so the model's writer is a reference that lays out what the parser reads.
- Machine-width overflow of sizes (`usize`) is excluded by preconditions throughout.
- The directory walk of `list_indexes` is left out; only the name filter it applies is modelled.
- I/O errors from `read_to_end` and `read_to_string` other than invalid UTF-8 are not modelled.
- Serialise.ReadString: a string that does not match is `unimplemented!` in the source, a panic, which the model returns as a distinct error value.
- The date inside the person of `src/object/person.rs` comes from an external date library and is a codec parameter of `ObjectPerson`.
- ModObject.ProvideSize: the size of a `usize` written in decimal is taken to be its number of digits; the trait implementation for `usize` is not part of this model.
- ModTree.EntType: corrected; the source swaps the tags (see TagsInverted), and the as-written choice is EntTypeAsWritten.
- ModTree.NewFrom: corrected; the source makes `4` a file and `10` a directory, which NewFromAsWritten models.
- ModTree.SerialiseEnt: corrected; the source writes the swapped tag and the quoted path, which SerialiseEntAsWritten models.
- ModTree.ProvideSizeEnt: corrected; the source reports eight plus the path length, which ProvideSizeEntAsWritten models.
- ModTree.ParseEnt: corrected; the source reads the tags swapped, which ParseEntAsWritten models.
- ModTree.ParseSerialiseEnt: a round trip of the corrected entry codec; the source's entry reads back with its path quoted (QuotedPathReadBack).
- ModTree.EntChunks: corrected; the chunks of the source are EntChunksAsWritten.
- ModTree.SerialiseTree: corrected; the source's writer is SerialiseTreeAsWritten.
- ModTree.ProvideSizeTree: corrected; the source's count is ProvideSizeTreeAsWritten.
- ModTree.ParseTree: corrected; the source's reader is ParseTreeAsWritten.
- ModTree.ParseSerialiseTree: a round trip of the corrected tree codec; the source's round trip is ParseSerialiseTreeAsWritten, which gives the paths back quoted.
- ModCommit.ProvideSize: corrected; the source's count, one byte short, is ProvideSizeAsWritten.
- ModObject.Body: corrected for trees; a commit's body is the one the source writes.
- ModObject.Serialise: corrected; the header carries the true length and trees are written with git's tags. The source's writer is SerialiseAsWritten.
- ModObject.ProvideSize: corrected; the source's count is ProvideSizeAsWritten (see ProvideSizeShort). The size of a `usize` written in decimal is taken to be its number of digits; the trait implementation for `usize` is not part of this model.
- ModObject.Parse: corrected for trees; the source's reader is ParseAsWritten.
- ModObject.ParseIgnoresSize: stated for the corrected reader and body; HeaderUndercounts and ParseSerialiseAsWritten state what the source's reader does with its own text.
- ModObject.ParseSerialise: a round trip of the corrected object codec; the source's is ParseSerialiseAsWritten.
- ElementsHash.NomParse: corrected, with the digest-length check and without the panic; the readers of `src/object/mod.rs` and `src/object.rs` use NomParseAsWritten.
- Hex.FromHex: the rejected character is reported as the byte at its index, where rustc-serialize reports the decoded `char`; the two agree for ASCII, and for a byte of a multi-byte character the source panics before reporting (ReportPanics).
- LegacyObject.ParseEncoding: corrected; it consumes the line feed that ParseEncodingAsWritten leaves.
- LegacyObject.ParseTail: corrected; the source's tail is ParseTailAsWritten.
- LegacyObject.ParseTailSteps: about the corrected tail.
- LegacyObject.ParseTailOf: about the corrected tail; ParseTailAsWrittenOf states the source's.
- LegacyObject.Parse: corrected; the source's parser is ParseAsWritten, which `Commit::parse` (ParseResult) uses.
- LegacyObject.ParseRender: a round trip of the corrected parser; ParseAsWrittenRender states the source's.
- LegacyObject.ParseResult: a buffer on which the parser panics has no result, so the member requires that it does not.
- Timezone.Text: corrected, git's four digits; the source writes TextAsWritten.
- ElementsDate.SerialiseGit: corrected, git's four-digit offset; the source writes Serialise.
- ElementsDate.ParseSerialiseGit: a round trip of the corrected text; ParseSerialise states the source's.
- ElementsDate.ProvideSize: corrected; the source measures the `Display` text (ProvideSizeAsWritten).
- PackIndex.HeaderEq: corrected; the source's equality is HeaderEqAsWritten, which ignores the magic.
- PackIndex.NumbersWithPrefix: a decreasing fan-out step overflows the `u32` subtraction; the member gives None for the debug-build panic, and NumbersWithPrefixWrapping gives the release-build value.

## Findings

| source | as written | input that shows it | evidently intended | confidence | as-written member | corrected member |
|---|---|---|---|---|---|---|
| src/object/elements/hash.rs:114-128 | `nom_parse` takes forty bytes and hex-decodes them with a decoder that skips blanks | forty spaces are read as a hash with no bytes | forty hex digits giving a twenty-byte hash | not executed; high | ElementsHash.NomParseAcceptsBlanks | ElementsHash.NomParseDisplay |
| src/protocol/hash.rs:150-155 | `encode_hex` returns the digest size as the count written | any hash: forty bytes are written, twenty reported | the count of hex digits written, forty | not executed; high | ProtocolHash.EncodeHexMiscounts | ProtocolHash.EncodeHex |
| src/fs/pack/index.rs:24-30 | `eq` compares the left header's magic with itself | headers with magic 0 and 0xff744f63, same version and fan-outs, are equal though `cmp` orders them apart | the magic of both headers compared | not executed; high | PackIndex.HeaderEqIgnoresMagic | PackIndex.HeaderEq |
| src/object_backup/elements/date.rs:31-38 | one `0` is written before the number `hours * 100 + minutes` when the hours are below ten | offset 0 is written `+00`, offset 5 `+05` | git's four digits, `+0000` and `+0005` | not executed; medium | Timezone.TextAsWrittenDropsZeros | Timezone.ParseText |
| src/object/elements/date.rs:56-69 | `provide_size` measures the `Display` text, not what `serialise` writes | a one-hour offset at the epoch reports 5 and writes 7 bytes | the length of what is written | not executed; high | ElementsDate.ProvideSizeMiscounts | ElementsDate.ProvideSize |
| src/object/mod.rs:350-374 | the commit size leaves out the newline written after the extras | any commit is one byte longer than reported | the length of what is written | not executed; high | ModCommit.ProvideSizeAsWritten | ModCommit.ProvideSize |
| src/object/mod.rs:573-593 | a directory gets the tag `10` and a file `4` | every tree entry is written with the other kind's tag | git's `40000` for a directory and `100644` for a file, the directory tag being `4` | not executed; medium | ModTree.TagsInverted | ModTree.NewFromEntType |
| src/object/mod.rs:523-551 | the path is written with `{:?}`, which quotes it | an entry written and read back has quotes around its path | the raw path | not executed; high | ModTree.QuotedPathReadBack | ModTree.ParseSerialiseEnt |
| src/object/mod.rs:523-536 | an entry's size leaves out its tag and its twenty-byte digest | any entry is twenty bytes plus its tag longer than reported | the length of what is written | not executed; high | ModTree.ProvideSizeEntAsWritten | ModTree.ProvideSizeEnt |
| src/object/mod.rs:655-668 | a tree's size sums the miscounted entry sizes | any non-empty tree is at least twenty bytes per entry longer than reported | the length of what is written | not executed; high | ModTree.ProvideSizeTreeAsWritten | ModTree.ProvideSizeTree |
| src/object/mod.rs:772-775 | a tree object's size adds five for the keyword and the NUL | any tree object is one byte longer than reported, `tree ` and the NUL being six | six, as eight is added for `commit ` and the NUL | not executed; medium | ModObject.ProvideSizeShort | ModObject.ProvideSize |
| src/object.rs:171-176 | the encoding parser stops before the line feed and leaves it | a commit with an encoding reads its extras and the empty line as part of the message | the line feed consumed, as every other header line does | not executed; high | LegacyObject.ParseAsWrittenRender | LegacyObject.ParseRender |
| src/object/elements/date.rs:61-67 | one `0` is written before the number `hours * 100 + minutes` when the hours are below ten | the epoch at UTC is written `0 +00` | git's `0 +0000` | not executed; medium | ElementsDate.SerialiseDropsZeros | ElementsDate.ParseSerialiseGit |
| src/object/elements/hash.rs:114-128 | the forty bytes are made a `str` unchecked, and the hex decoder slices that text at a rejected byte to report it | `0`, 0x80 and thirty-eight `0`s panic instead of giving an error | an error for any byte that is not a hex digit | not executed; medium | ElementsHash.NomParseAsWrittenPanics | ElementsHash.NomParse |
| src/object/mod.rs:543-593 | the tree reader takes `4` for a file and `10` for a directory | git's tree entry `40000 a` with its digest is read as a file | a directory, as git's mode `40000` says | not executed; medium | ModTree.ReadersDisagree | ModTree.ParseSerialiseTree |
