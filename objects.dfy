/**
 * The object store as the tree engine sees it. The repository lookups of the
 * engine (locating the repository and parsing an object by its address) are
 * replaced by an explicit map from address text to stored object.
 */
module Objects {
  import opened ByteStrings

  /** A stored object: its type name ("blob", "tree", "commit") and its payload. */
  datatype GitObject = GitObject(kind: Bytes, data: Bytes)

  /** Address text (40 lower-case hex digits in a real repository) to object. */
  type Store = map<Bytes, GitObject>

  const TreeKind: Bytes := Ascii("tree")
  const BlobKind: Bytes := Ascii("blob")
}
