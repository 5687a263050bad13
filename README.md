# gogit tree objects in Dafny

A model of the tree engine of gogit (`tree.go`), a small Go implementation of
git's object database. A tree object stores a directory snapshot as a binary
payload. Each entry is one record `mode SP name NUL <20 raw hash bytes>`, with
the mode written without leading zeros.

The model covers:

- `NewTreeFromInput`, which builds that payload from text lines of the form
  `mode kind hash<TAB>name`;
- `ParseData`, which walks the payload with a cursor, looks up each entry's
  kind and sorts the entries by name;
- `NewTree`, `Type`, `DataSize` and `Print`;
- `Checkout`, which writes a tree out as directories and files.

How the model is built:

- Go strings and byte slices are `Bytes`, a sequence of bytes.
- The repository the Go code opens with `GetRepo(".")` and queries with
  `repo.ObjectParse` becomes an explicit `Store`: a map from 40-character hash
  text to the object (kind and data).
- The filesystem becomes the `Disk` class, whose `nodes` map paths to
  directories and files. `os.Mkdir` and `ioutil.WriteFile` are its two
  methods, specified by `MkdirResult` and `WriteFileResult`.
- `GitTree` is a class with the two fields of the Go struct. `ParseData`
  appends to its `entries` field and then sorts it, as the Go code does.
- Every method with a loop is proved against a specification function on
  values:
  - `ParseData` against `ParseEntries` and `SortByName`;
  - `NewTreeFromInput` against `EncodeInput` and `NewTreeSpec`;
  - `Print` against `Render`;
  - `Checkout` against `CheckoutEntries`.
  The properties the Go code and its tests rely on are proved as lemmas about
  those functions.

The Go code panics on some malformed input; the model turns each panic into an
error value:

- `Truncated`: a record with no space (`tree.go:109`), no NUL
  (`tree.go:118`), or a NUL before the space (`tree.go:118`); and a record
  whose 20 hash bytes run past the end of the payload's capacity
  (`tree.go:121`). Go checks a slice bound against the capacity, not the
  length, so when the payload has spare capacity, the Go code reads the
  missing hash bytes from beyond the payload instead of panicking; see
  "## Left out".
- `MissingField`: an input line with fewer than four fields.

The mode length check applies to the raw mode text read from the payload
(`tree.go:112`), before any padding.

Specification functions without a contract of their own, whose properties are
stated by the lemmas and methods in the table below:

- `TreeEntries.Record` and `TreeEntries.Serialize`: the record and payload
  formats (`tree.go:108-121`);
- `TreeInput.EncodeLine`, `TreeInput.EncodeLines` and `TreeInput.EncodeInput`:
  what `NewTreeFromInput` encodes (`tree.go:47-71`);
- `TreePrint.Render`: what `Print` prints (`tree.go:85-96`);
- `TreeCheckout.CheckoutEntries`, `TreeCheckout.CheckoutEntry`,
  `TreeCheckout.CheckoutTree`, `TreeCheckout.CheckoutChildren` (NewTree, then
  the checkout one level down, `tree.go:170-178`) and `TreeCheckout.CheckoutBlob`: what `Checkout`
  does to the disk (`tree.go:156-193`).

Modules:

- `ByteStrings`: `IndexByte`, the `strings.Split` of the input on `\n`,
  `strings.Fields`, `TrimLeft(_, "0")` and byte-wise `<`.
- `Hex`: `hex.EncodeToString` and `hex.DecodeString`.
- `TreeEntries`: the entry, the errors, the record, payload and text formats.
- `TreeSort`: the sort by name.
- `TreeInput`: what `NewTreeFromInput` encodes.
- `TreeParse`: what `ParseData` reads.
- `TreePrint`: what `Print` renders, and the round trips.
- `FileSystem`: the disk.
- `TreeCheckout`: what `Checkout` does to the disk.
- `Tree`: the class and the methods.
- `TreeExamples`: the scenario of `git/repo_test.go`.

## Model

| member | source | states |
|---|---|---|
| `Tree.GitTree.Type` | tree.go:77-79 | the type name of a tree is the kind "tree" of the object it was built from |
| `Tree.GitTree.DataSize` | tree.go:81-83 | the size of a valid tree is the length of the records of its entries |
| `Tree.GitTree.Print` | tree.go:85-96 | the accumulated text is `Render(entries)`: per entry, the mode left-padded with '0' to six bytes, SP, kind, SP, hash, TAB, name, LF, in entry order |
| `Tree.GitTree.ParseData` | tree.go:98-148 | the object is unchanged and the error is the one the cursor walk stops with; on success the entries become the old entries plus the parsed ones, sorted by name; on an error the entries read before it stay appended, unsorted |
| `Tree.ReadRecord` | tree.go:107-135 | one pass of the cursor loop yields a well-formed entry whose record is exactly the bytes up to the cursor's new position, with a positive advance, or the error the walk ends with at this point |
| `Tree.GitTree.Checkout` | tree.go:150-196 | the disk afterwards and the returned error are those of `CheckoutEntries` on the entries, from the disk before |
| `Tree.CheckoutOne` | tree.go:157-192 | one pass of the checkout loop is `CheckoutEntry`: an object missing from the store is an error; otherwise a "tree" entry goes to the directory branch and any other entry to the file branch |
| `Tree.CheckoutDir` | tree.go:163-178 | the directory branch is `CheckoutTree`: Mkdir, then NewTree on the object, then the checkout inside one level down; each failure stops it with its error |
| `Tree.CheckoutFile` | tree.go:179-191 | the file branch is `CheckoutBlob`: a non-blob object is an error, otherwise WriteFile of the blob's bytes, and a failed write is an I/O error |
| `Tree.NewTree` | tree.go:27-43 | an object that is not a tree, or a payload that does not parse, gives that error and no tree; otherwise a fresh valid tree over the object whose entries are `NewTreeSpec`'s sorted entries |
| `Tree.NewTreeFromInput` | tree.go:46-75 | an input that does not encode gives its error and no tree; otherwise the result is `NewTree` on the tree object holding the encoded payload |
| `Tree.BuildPayload` | tree.go:47-71 | the payload built line by line, or the first line's error, is `EncodeInput(input)` |
| `TreeParse.ParseEntries` | tree.go:104-140 | every entry read has a 5- or 6-byte mode free of SP and NUL, a name free of NUL, 40-character lower-case hex hash text present in the store, and the store's kind; without an error, the records of the entries tile the payload exactly |
| `TreeParse.NewTreeSpec` | tree.go:27-43 | every mode of a built tree is 5 or 6 bytes long |
| `TreeParse.NewTreeResult` | tree.go:142-145 | a non-tree object is rejected as BadType; a tree object fails exactly when the walk fails, with its error; on success the entries are sorted by name, a permutation of the parsed entries, every one a well-formed parsed entry, and their records are as long as the payload |
| `TreeParse.Resolve` | tree.go:123-135 | every hash is in the store exactly when there is no error; an error is NotFound of a hash absent from the store |
| `TreeParse.ParseRecord` | tree.go:107-139 | the record of a well-formed entry followed by any bytes parses to that entry, with the kind taken from the store, and then the rest; a hash absent from the store stops at NotFound |
| `TreeParse.RecordLayout` | tree.go:108-121 | in a record followed by any bytes, the first SP ends the mode and the first NUL ends the name, with 20 hash bytes after it |
| `TreeParse.ParseSerialized` | tree.go:105-140 | the payload of a run of well-formed entries followed by any bytes parses to those entries, with kinds from the store, and then the rest |
| `TreeParse.ParseExactly` | tree.go:105-140 | parsing the payload of well-formed entries gives them back with the store's kinds, or the first missing hash |
| `TreeParse.BadModeRejected` | tree.go:111-114 | once the text before the next SP is not 5 or 6 bytes long, the walk stops with BadMode of that text, keeping the entries before it |
| `TreeParse.MissingObjectRejected` | tree.go:123-127 | when entry k is the first whose hash is absent from the store, the walk stops with NotFound of that hash after exactly k entries |
| `TreeParse.ResolveStopsAt` | tree.go:124-127 | the first hash absent from the store is the one reported, after exactly k entries |
| `TreeParse.ThenAssociative` | tree.go:105-140 | sequencing parts of the walk is associative, so the walk can be split at any record |
| `TreeSort.SortByName` | tree.go:142-145 | the result is sorted by name and is a permutation of the input |
| `TreeSort.Insert` | tree.go:143-145 | inserting into a sorted list keeps it sorted and adds exactly that entry |
| `TreeSort.SortStrictlySorted` | tree.go:142-145 | sorting entries already strictly ascending by name leaves them as they are |
| `TreeInput.EncodeText` | tree.go:48-71 | each line of input entries contributes its record (mode without leading zeros, SP, name, NUL, decoded hash), in line order |
| `TreeInput.EncodeTextBadHash` | tree.go:66-69 | the first line whose hash field is not even-length hex stops the encoding with BadHex of that field |
| `TreeInput.EmptyLineIgnored` | tree.go:50-52 | an empty line contributes nothing: doubling a line feed leaves the result unchanged |
| `TreeInput.EncodeLinesAppend` | tree.go:49-71 | encoding two runs of lines is the first encoding followed by the second, and the first error wins |
| `TreeInput.EncodedSize` | tree.go:48-71 | the payload of lines with 40-digit hashes has, per entry, the trimmed mode length plus the name length plus 22 bytes |
| `TreeInput.EncodeEmptyText` | tree.go:47-48 | the empty input encodes to the empty payload |
| `TreePrint.PadTrim` | tree.go:59 | padding the trimmed form of a six-byte mode gives the mode back |
| `TreePrint.TrimPad` | tree.go:89 | trimming a padded mode without a leading '0' gives the mode back |
| `TreePrint.RenderIsText` | tree.go:85-96 | the printed text is the input text of the entries with their modes padded to six bytes |
| `TreePrint.RenderTrimmed` | tree.go:85-96 | for six-byte modes, printing the trimmed entries gives the input text back |
| `TreePrint.RenderEncode` | tree.go:46-96 | the printed text of single-word entries without a leading '0' in the mode encodes back to their payload |
| `TreePrint.PrintRoundTrip` | tree.go:46-148 | for strictly name-sorted input lines with six-byte modes and kinds that agree with the store, the input encodes, the tree built from the payload holds the entries with trimmed modes in input order, and printing it reproduces the input |
| `TreeCheckout.ParseUint32` | tree.go:187 | `strconv.ParseUint(_, 8, 32)` as `ParseInt` calls it: a value exactly for non-empty octal digits that fit 32 bits; ErrRange exactly when some run of leading octal digits exceeds 32 bits, whatever follows it; a syntax error otherwise (empty text, or a byte that is no octal digit before any overflow) |
| `TreeCheckout.ParseOctal` | tree.go:187 | the result lies within int32; for octal digits, optionally after `+` or `-`, their signed value, clamped to the int32 maximum or minimum when it is out of range; 0 for a syntax error (empty text, a bare sign, or a byte that is no octal digit), except that digits already beyond 32 bits before such a byte give the bound on the side of the sign |
| `TreeCheckout.FileMode` | tree.go:187-188 | `os.FileMode` of the parsed tail is a 32-bit unsigned value |
| `TreeCheckout.FileModeOfSixDigits` | tree.go:186-188 | for a six-digit octal mode, the permission is its value modulo 512, so the type marker is dropped |
| `TreeCheckout.OctalAppend` | tree.go:187 | the octal value of concatenated digits is the first value shifted by the second's digit count plus the second value |
| `TreeCheckout.CheckoutAppend` | tree.go:156-193 | entries are checked out in order, and after the first error no later entry is touched |
| `TreeCheckout.EntriesFrame` | tree.go:156-193 | a checkout only adds or rewrites paths below its target, inside the entries' own names, and never removes a path or turns a directory into a file |
| `TreeCheckout.EntryContents` | tree.go:163-191 | a successful checkout of one entry into a free name leaves a directory for a tree entry, or a file with the blob's bytes and the mode's permission |
| `TreeCheckout.CheckoutContents` | tree.go:156-193 | after a successful checkout of strictly name-sorted entries into names unused below the target, every entry's path holds its directory, or its file with the blob's bytes and the permission from its mode |
| `TreeCheckout.EntriesWellFormed` | tree.go:156-193 | a checkout, whether it succeeds or fails, keeps every path of the disk inside a directory |
| `TreeCheckout.NotBelowMissing` | tree.go:165-167 | on a disk where every path lies inside a directory, nothing lies below a path that is absent, so a directory just made is empty |
| `TreeCheckout.DeepKept` | tree.go:156-193 | the whole tree an entry's checkout left stays in place as long as nothing below the entry's path changes |
| `TreeCheckout.EntryTreeContents` | tree.go:157-192 | a successful checkout of one entry into a free name, on a disk where every path lies inside a directory, leaves its directory or file and, for a tree entry, the whole of its tree below it |
| `TreeCheckout.CheckoutTreeContents` | tree.go:156-193 | on a disk where every path lies inside a directory, when the entries' names are distinct, non-empty and unused below the target and every tree in the store has distinct non-empty names, a successful checkout leaves the whole tree at every level: a directory for each tree entry holding its tree's entries, and for every other entry a file with the blob's bytes and the permission from its mode |
| `FileSystem.Join` | tree.go:157 | joining a name appends one segment; an empty name adds nothing |
| `FileSystem.MkdirResult` | tree.go:165 | the directory is made exactly when the path is new and its parent is a directory, and only that path changes |
| `FileSystem.WriteFileResult` | tree.go:188 | the write succeeds exactly when the parent is a directory and the path is not one; a new file gets the permission, an existing one keeps its own; only that path changes |
| `Hex.Encode` | tree.go:121 | the hex text is twice as long as the bytes and lower-case |
| `Hex.Decode` | tree.go:66 | decoding succeeds exactly on even-length hex text of either case, and yields half as many bytes |
| `Hex.DecodeEncode` | tree.go:66-121 | decoding the hex encoding of bytes gives the bytes back |
| `Hex.EncodeDecode` | tree.go:66-121 | encoding the decoding of even-length lower-case hex text gives the text back |
| `ByteStrings.IndexByte` | tree.go:108 | -1 exactly when the byte is absent; otherwise the byte is at that position and at none before it |
| `ByteStrings.SplitLines` | tree.go:48 | `strings.Split(_, "\n")` gives at least one piece, and no piece holds a line feed |
| `ByteStrings.JoinSplitLines` | tree.go:48 | joining the split lines with line feeds gives the input back |
| `ByteStrings.SplitLinesAppend` | tree.go:48 | splitting at a line feed concatenates the splits of both sides |
| `ByteStrings.Fields` | tree.go:56 | every field is a non-empty run without whitespace |
| `ByteStrings.FieldsOfFour` | tree.go:56 | the fields of four words separated by SP, SP and TAB are exactly those four words |
| `ByteStrings.Zeros` | tree.go:89 | `strings.Repeat("0", n)` is n bytes, each '0' |
| `ByteStrings.TrimZeros` | tree.go:59 | the result is the input with its leading '0's removed: a suffix after only zeros, not starting with '0' |
| `ByteStrings.LessTotal` | tree.go:144 | byte-wise order is total |
| `ByteStrings.LessTransitive` | tree.go:144 | byte-wise order is transitive |
| `TreeExamples.TreeOfInput` | git/repo_test.go:164-168 | the test line encodes, the tree built from it holds exactly its entry, and printing gives the line back |
| `TreeExamples.PayloadOfInput` | git/repo_test.go:176-182 | the payload of the test line is 36 bytes long |
| `TreeExamples.TestFileMode` | tree.go:186-188 | mode 100644 gives permission 0644 (420) |
| `TreeExamples.RangeBeforeSyntax` | tree.go:187 | eleven '7's followed by "x" parse to the int32 maximum, and with a '-' in front to the int32 minimum: the overflow is reported before the bad byte is read |
| `TreeExamples.SyntaxWithinRange` | tree.go:187 | ten '7's followed by "x" fit 32 bits, so the "x" is a syntax error and the result is 0 |
| `TreeExamples.CheckoutWritesTestFile` | git/repo_test.go:328-343 | checking the test tree out into an empty directory succeeds and writes exactly the test file with "Hello World\n" and permission 0644 |
| `TreeExamples.CatFile` | git/repo_test.go:164-182 | the tree built by NewTreeFromInput prints as the input line and has size 36 |
| `TreeExamples.CheckoutTestTree` | git/repo_test.go:328-343 | Checkout of the built tree into an empty disk returns no error and leaves the file with the blob's bytes and mode 0644 |

## Left out

- `Tree.GitTree.Checkout`: the recursion into subtrees is bounded by a `depth` argument. When the bound runs out, the model reports `DepthExhausted`, where the Go code would keep recursing. The Go code has no bound of its own on the recursion: for a store whose trees contain themselves it recurses until `os.Mkdir` fails on the ever longer path.
- `Tree.GitTree.Print`: requires every mode to be at most six bytes long, since `strings.Repeat` panics on a negative count. Trees built by `NewTree` have 5- or 6-byte modes.
- `GetRepo(".")` failing, at the start of `ParseData` and `Checkout`: the store is a parameter and is always present.
- `repo.ObjectParse`, `ObjectWrite`, `NewObject`, SHA-1 hashing and zlib compression: these are not part of this model. Object lookup is the `Store` map, and the test hashes are opaque text.
- `NewBlob` (not part of this model): it is taken to accept exactly objects of kind "blob" and to keep their data, by analogy with `NewTree`.
- `sort.Slice` is not stable and sorts in place; the model uses a stable insertion sort whose result is reassigned to the field. `Tree.GitTree.ParseData`, `Tree.NewTree` and `Tree.NewTreeFromInput` ensure that the entries equal `SortByName` of the parsed entries, which fixes the order of entries with equal names to their payload order; the Go code may order such entries differently. What holds for any sort (sorted by name, a permutation of the parsed entries) is stated by `TreeSort.SortByName` and `TreeParse.NewTreeResult`; when names are distinct the order is determined.
- `Tree.GitTree.ParseData`: a record whose hash bytes run past the length of the payload but not past its capacity. The Go code then reads bytes beyond the payload as the hash, looks that hash up and appends an entry if the lookup succeeds; the model reports `Truncated`, as it does when the capacity runs out and the Go code panics. The capacity of the payload slice is not modelled.
- `File.perm` holds the value `TreeCheckout.FileMode` computes, which is the `os.FileMode` passed to `ioutil.WriteFile`; the permission a real filesystem applies (after the umask, without type bits) is not modelled.
- `strings.Fields`: only ASCII whitespace (TAB, LF, VT, FF, CR, SP) is modelled; multi-byte Unicode spaces are not.
- Real filesystem semantics: the permission of new directories (`os.ModePerm`), the umask, file ownership, and `filepath.Join`'s cleaning of `/`, `.` and `..` inside names are not modelled. A path is a sequence of name segments below the checkout target, and the target is taken to be an existing directory.
- `ioutil.WriteFile` on an existing file keeps that file's permission; that is the one case of its semantics the model keeps.
- Checkout idempotence across two distinct target directories: `CheckoutEntries` is a function of the store and the disk, so two checkouts of the same tree from equal disks give equal results. Relocating a checkout to another target path is not stated.
- The error texts of `fmt.Errorf` are reduced to error constructors carrying the offending value.
